# Knowledge index: a model with proofs

The project models the parts of a local knowledge index that decide what is stored, what is
retrieved and when an answer may be given, and proves what they promise.

* **Graph artifact** (`Csr`, `GraphArtifact`, `GraphCanonical`, `GraphCodec`, `GraphIndexer`,
  `GraphReader`, `GraphWriter`, `GraphChunks`, `GraphBuilder`, `GraphIdentity`, `GraphLive`): a binary graph format with a
  printer and a parser, canonical ordering, forward and reverse adjacency indexes, streaming
  output with digests, and the projection to live chunks.
* **Bounded investigation** (`Investigation`, `Completeness`, `Planning`, `Acceptance`, `Pipeline`,
  `PipelineSafety`, `PipelineAdmission`, `PipelineTheorems`, `PipelineOutcomes`): evidence contracts, a deterministic audit, planner and
  critic proposals, and a round-based run that may call an answerer only after a complete audit.
* **Publication** (`Lifecycle`, `Publication`): content-addressed generations, the search for a
  repair name, the active pointer, and crashes between any two steps.
* **Ranking** (`Corpus`, `Fusion`, `Selection`, `Hydration`, `FusionMeaning`, `Context`, `Retention`, `Standing`,
  `RankedRows`, `RetentionTheorems`):
  reciprocal-rank fusion, capped selection, neighbor context, and per-facet retention.
* **Lexical helpers** (`GitFilter`, `JsonArray`), **metrics** (`Evaluation`, `EvaluationMeaning`) and **profile
  folding** (`PerfData`).
* Shared: `Bytes`, `Text`, `Scalars`, `Sorting`, `TextSets`, `Sums`.

Conventions. A digest is the value of an arbitrary function to 32 bytes; nothing but its being a
function is used, except where a result is stated for a function without certain collisions. Strings are their UTF-8 bytes (RFC 3629); paths follow Unix rules. Sorting a
vector is a stable sort given as a function, and a lookup by binary search among strictly sorted
nodes is a lookup by id. Sets kept in order are listed in order. Scores and logarithms are exact
real numbers. JSON printing and parsing, the vector and lexical checks of a generation, the Git
library, the acquirer, the answerer, the frame parser and the debug spellings of facets are
parameters, so what is proved holds for any of them that meets the stated assumption. Text of
error messages is not modelled; which error is reported is, except inside the graph parser and the
checks of a generation, where only success or failure is.

Where the code differs from what one might expect, the code is modelled: a file with another schema
minor decodes but does not re-encode to itself (`AnyMinorDecodes`, `EncodeUndoesDecode`); the graph
loader re-encodes and so can disagree with file validation on such files (`LoaderDisagrees`,
`LoaderAgrees`); adjacent deduplication can keep an evidence id twice (`RepeatedIdIsKept`,
`RankedDistinctIff`); retention can make a facet go missing (`DisplacedFacetGoesMissing`,
`MissingFacetsKeptIff`); a hit listed twice scores above its formula
(`RepeatedHitBreaksFormula`, `ScoreIsFormula`); the key filter misreads a repository name with a NUL
byte (`NulNameDisagrees`, `FiltersAgree`); a repeated result can push metrics above 1 (`RepetitionExceedsOne`,
`NdcgBoundedIff`, `RecallBounded`); a context passage can lack its anchor (`NeighborWithoutAnchor`,
`ExpansionShape`, `AnchorLeavesNoTrace`); a form feed counts as white space around a JSON array
(`FormFeedIsAccepted`, `ReopensIff`).

## Model

| member | source | states |
|---|---|---|
| `GraphCodec.DecodeUndoesEncode` | crates/vesc-knowledge-index/src/graph.rs:523-624 | Decoding an encoded graph gives the graph back, with edge sources recovered only from the forward offsets. |
| `GraphCodec.EncodeUndoesDecode` | crates/vesc-knowledge-index/src/graph.rs:523-624 | A decoded file can be encoded again, and to the same bytes exactly when it carries schema minor 0. |
| `GraphCodec.AnyMinorDecodes` | crates/vesc-knowledge-index/src/graph.rs:538-624 | A valid graph's file decodes to it under every schema minor, so files that do not re-encode to themselves are accepted. |
| `GraphCodec.DecodeInjective` | crates/vesc-knowledge-index/src/graph.rs:538-624 | Two accepted files of one minor that decode alike are the same bytes. |
| `GraphCodec.IndexAtEdgeCountIsRejectedLater` | crates/vesc-knowledge-index/src/graph.rs:887-925 | The wire check admits a reverse index equal to the edge count; no decoded graph has one. |
| `GraphCodec.NodeRoundTrip` | crates/vesc-knowledge-index/src/graph.rs:686-742 | A node record parses back, followed by whatever follows it. |
| `GraphCodec.EdgeRoundTrip` | crates/vesc-knowledge-index/src/graph.rs:927-960 | An edge record without its source parses back under the source of its row. |
| `GraphCodec.RowsRoundTrip` | crates/vesc-knowledge-index/src/graph.rs:538-624 | Edge rows delimited by the forward offsets parse back to the edge list, each edge under its row's node. |
| `GraphCodec.PayloadSound` | crates/vesc-knowledge-index/src/graph.rs:538-624 | A payload that parses is the printed form of what it parses to. |
| `GraphCanonical.Outgoing` | crates/vesc-knowledge-index/src/graph.rs:416-429 | The slice between two forward offsets is exactly the edges with that source, in order, for known and unknown nodes; no access is out of bounds. |
| `GraphCanonical.Incoming` | crates/vesc-knowledge-index/src/graph.rs:431-445 | The edges named by a row of the reverse index are exactly those with that target, in order. |
| `GraphCanonical.ReverseIndexIsPermutation` | crates/vesc-knowledge-index/src/graph.rs:779-857 | The reverse index holds every edge position exactly once, none past the end. |
| `GraphCanonical.ForwardOffsetsUnique` | crates/vesc-knowledge-index/src/graph.rs:744-777 | No other offsets put each edge in its source's row. |
| `Csr.TransposeRow` | crates/vesc-knowledge-index/src/graph.rs:779-857 | Row by row the reverse index lists the entries of that row in increasing position. |
| `Csr.TransposePermutes` | crates/vesc-knowledge-index/src/graph.rs:779-857 | The transpose lists every entry once. |
| `Csr.OffsetsUnique` | crates/vesc-knowledge-index/src/graph.rs:744-777 | Offsets are determined by the rows they delimit. |
| `GraphArtifact.DigestOrderIsIndexOrder` | crates/vesc-knowledge-index/src/graph.rs:447-507 | Distinct edges in digest order are in the strict index-tuple order that validation demands. |
| `GraphCanonical.NewIgnoresOrder` | crates/vesc-knowledge-index/src/graph.rs:317-350 | Rearranging the nodes and edges given to the constructor changes nothing: all orders fail or all give one artifact. |
| `GraphLive.NewSucceedsIff` | crates/vesc-knowledge-index/src/graph.rs:317-414 | The constructor succeeds exactly on at most 10 million nodes with different ids, each with non-blank strings of at most 1 MiB, a relative path that stays below, an ordered span and the digest of its provenance as id, and at most 50 million different edges, each between nodes of one repository and revision, with an ordered evidence span and a named relation and extractor. |
| `GraphLive.NewResult` | crates/vesc-knowledge-index/src/graph.rs:317-350 | It then holds the given nodes in order of id and the given edges in the order of the comparison chain, written out field by field. |
| `GraphLive.EdgeOrderMeaning` | crates/vesc-knowledge-index/src/graph.rs:323-336 | The key order of edges is that chain of comparisons. |
| `GraphLive.ValidIff` | crates/vesc-knowledge-index/src/graph.rs:357-414 | A graph is valid exactly when the constructor makes it of its own nodes and edges. |
| `GraphIdentity.IdentityInjective` | crates/vesc-knowledge-index/src/graph.rs:137-168 | The hashed bytes of two nodes are equal only if repository, revision, path, symbol, kind and span are. |
| `GraphIdentity.SymbolInjective` | crates/vesc-knowledge-index/src/graph.rs:39-64 | A symbol determines the title and the ordinal that made it. |
| `GraphIdentity.NodeIdsIff` | crates/vesc-knowledge-index/src/graph.rs:137-168 | Two chunks get one node id exactly when they agree in repository, revision, path, title, ordinal and span, unless the hash collides on their identities. |
| `GraphLive.FromChunksIff` | crates/vesc-knowledge-index/src/graph.rs:39-108 | A set of chunks has a graph exactly when there are at most 10 million, each can become a node, no two share an id or their provenance, and every link leads to a chunk of the set in the same repository and revision, as long as the hash does not collide on them. |
| `GraphCanonical.ValidIsCanonical` | crates/vesc-knowledge-index/src/graph.rs:357-414 | A valid artifact is what the constructor makes of its own nodes and edges. |
| `GraphIndexer.BuildForwardIndex` | crates/vesc-knowledge-index/src/graph.rs:744-777 | The counting loop computes the offsets, or fails when a source is unknown or edges are not grouped. |
| `GraphIndexer.BuildReverseIndex` | crates/vesc-knowledge-index/src/graph.rs:779-857 | Bucketing, sorting and flattening compute the offsets and, row by row, the positions in comparator order; on sorted edges that is the transpose. |
| `GraphIndexer.SortedRowFacts` | crates/vesc-knowledge-index/src/graph.rs:793-841 | Each row of the reverse index holds exactly its positions, in the order of their edges. |
| `GraphIndexer.ValidateEdges` | crates/vesc-knowledge-index/src/graph.rs:447-507 | The scan accepts exactly the edge lists that are strictly increasing, in scope and within bounds. |
| `GraphIndexer.Validate` | crates/vesc-knowledge-index/src/graph.rs:357-414 | The validation steps decide validity. |
| `GraphIndexer.Construct` | crates/vesc-knowledge-index/src/graph.rs:317-350 | Sorting, indexing and validating in place compute the constructor's result. |
| `GraphReader.Reader.Take` | crates/vesc-knowledge-index/src/graph.rs:1060-1081 | Advances the offset over exactly the bytes returned, or fails and stays. |
| `GraphReader.Reader.ReadEdges` | crates/vesc-knowledge-index/src/graph.rs:538-624 | The loop over rows follows the parser of edge rows. |
| `GraphReader.Reader.ReadRow` | crates/vesc-knowledge-index/src/graph.rs:538-624 | The inner loop follows the parser of one row. |
| `GraphReader.DecodeArtifact` | crates/vesc-knowledge-index/src/graph.rs:538-624 | The reader with a moving offset decodes what the parser specifies. |
| `GraphWriter.DigestWriter.Write` | crates/vesc-knowledge-index/src/graph.rs:1039-1050 | Digests exactly the bytes that the underlying writer accepted. |
| `GraphWriter.DigestWriter.WritePayload` | crates/vesc-knowledge-index/src/graph.rs:686-742 | Writes the payload field by field over any writer that takes prefixes. |
| `GraphWriter.WriteArtifact` | crates/vesc-knowledge-index/src/graph.rs:631-640 | Whatever the chunking of the underlying writer, the bytes written are those of encoding and the checksum is their digest; the trailer is the digest of the payload alone. |
| `GraphChunks.FromChunksIgnoresOrder` | crates/vesc-knowledge-index/src/graph.rs:78-108 | The graph of a set of chunks does not depend on their order. |
| `GraphBuilder.GraphChunkBuilder.Push` | crates/vesc-knowledge-index/src/graph.rs:39-76 | Keeps one node and one locator a chunk, and refuses a repeated chunk id or an oversized span. |
| `GraphBuilder.GraphChunkBuilder.Finish` | crates/vesc-knowledge-index/src/graph.rs:78-108 | For any iteration order of the hash map, the result is the one specified for the pushed chunks. |
| `GraphBuilder.BuildLiveGraph` | crates/vesc-knowledge-index/src/lifecycle.rs:1261-1287 | Filtering the sidecar while pushing, then checking the node count, computes the live graph. |
| `GraphLive.LiveGraphIsExact` | crates/vesc-knowledge-index/src/lifecycle.rs:1261-1287 | On the sidecar itself: every live id has one record and one node with that record's fields; there is an edge exactly for each live record linking to a live record, from node to node, with evidence at the source, relation, extractor, confidence and verification as written; and no source has two edges. |
| `GraphBuilder.ProjectionIsClosed` | crates/vesc-knowledge-index/src/lifecycle.rs:1264-1279 | When every live id has a sidecar record, no surviving link dangles. |
| `Scalars.ValidIff` | crates/vesc-knowledge-index/src/graph.rs:1102-1106 | A byte string is taken as UTF-8 exactly when it encodes a list of Unicode scalar values. |
| `Scalars.WidthIff` | crates/vesc-knowledge-index/src/graph.rs:1102-1106 | A character of a given width stands at the head of a string exactly when the encoding of a scalar value of that width does. |
| `Scalars.BlankIff` | crates/vesc-knowledge-index/src/investigation.rs:337-347 | A string trims to nothing exactly when every character it encodes is white space. |
| `Scalars.HasControlIff` | crates/vesc-knowledge-index/src/planning.rs:83-88 | A string has a control character exactly when one of the characters it encodes is one. |
| `Scalars.HasParentDirIff` | crates/vesc-knowledge-index/src/graph.rs:968-972 | A path has a parent component exactly when one of its parts between slashes is two dots. |
| `Investigation.Extend` | crates/vesc-knowledge-index/src/investigation.rs:359-383 | The loops compute the extension or the first error. |
| `Investigation.PerformAudit` | crates/vesc-knowledge-index/src/investigation.rs:386-462 | The loops over evidence, facets and relationships compute the audit report. |
| `Investigation.CheckAnswer` | crates/vesc-knowledge-index/src/investigation.rs:468-492 | The loop computes the verdict on an answer's citations. |
| `Acceptance.ValidIff` | crates/vesc-knowledge-index/src/investigation.rs:316-353 | A contract is valid exactly when schema, counts and budget are within the limits, written out, and facets and relationships are stored under their own names and join facets that exist. |
| `Acceptance.ContractFaults` | crates/vesc-knowledge-index/src/investigation.rs:316-353 | Each error of validation is reported only when what it names is so. |
| `Acceptance.ExtendedIff` | crates/vesc-knowledge-index/src/investigation.rs:359-383 | An extension is accepted exactly when the contract is valid, there is room for all additions, each is named, joins facets that are there or added, and differs from nothing of its id; and it adds those and nothing else. |
| `Completeness.SupportedIff` | crates/vesc-knowledge-index/src/investigation.rs:393-441 | A facet is supported exactly by decisive items with a path, of its repository and stage, and at its revision when it names one. |
| `Completeness.MissingRelationshipFacts` | crates/vesc-knowledge-index/src/investigation.rs:443-462 | Missing relationships are exactly those that no row covers between supporters of the two facets. |
| `Completeness.CompleteIff` | crates/vesc-knowledge-index/src/investigation.rs:386-462 | Coverage is complete exactly when every facet has support and every relationship is covered. |
| `Completeness.RejectedFacts` | crates/vesc-knowledge-index/src/investigation.rs:393-435 | Rejections are listed in order, one exactly when an item of that id counts for nothing for exactly that reason; an item is rejected exactly when it supports no facet. |
| `Completeness.AuditMonotone` | crates/vesc-knowledge-index/src/investigation.rs:386-462 | With more evidence and relationships nothing new goes missing. |
| `Completeness.CitationFacts` | crates/vesc-knowledge-index/src/investigation.rs:468-492 | A facet's citation is accepted exactly when a supporter is cited. |
| `Completeness.ExtensionStrengthens` | crates/vesc-knowledge-index/src/investigation.rs:359-383 | An accepted extension keeps every requirement and the budget, and holds every addition. |
| `Completeness.NeverWeakens` | crates/vesc-knowledge-index/src/investigation.rs:359-492 | Under a stronger contract, completeness and answer validity imply both under the original. |
| `Planning.ApplyPlanner` | crates/vesc-knowledge-index/src/planning.rs:125-161 | The query loop computes the accepted contract or the first fault. |
| `Planning.AcceptedQueries` | crates/vesc-knowledge-index/src/planning.rs:147-159 | Queries pass exactly when they name known facets, are well formed and pairwise different. |
| `Acceptance.AppliedIff` | crates/vesc-knowledge-index/src/planning.rs:125-161 | A proposal is accepted exactly when its schema and list lengths are within bounds, its extension is accepted, and its queries name facets, are not blank, at most 256 bytes, free of control characters and pairwise different; it yields the extension. |
| `Acceptance.CriticAppliedIff` | crates/vesc-knowledge-index/src/planning.rs:78-100 | A critic's proposal is accepted exactly when the same planner's proposal is and its concerns are few and well formed, and yields the same. |
| `Acceptance.ProposalFaults` | crates/vesc-knowledge-index/src/planning.rs:125-161 | Each error of a proposal is reported only when what it names is so. |
| `Acceptance.PreparedIff` | crates/vesc-knowledge-index/src/pipeline.rs:172-197 | Which proposals and how many model calls each operating point needs before the first round, and with which contract, calls and queries the run then starts. |
| `Acceptance.PreparationFaults` | crates/vesc-knowledge-index/src/pipeline.rs:172-197 | Each error before the first round is reported only when what it names is so. |
| `Planning.AppliedStrengthens` | crates/vesc-knowledge-index/src/planning.rs:78-161 | An accepted proposal only adds. |
| `Planning.ProposalsNeverWeaken` | crates/vesc-knowledge-index/src/planning.rs:78-161 | No sequence of accepted planner and critic proposals changes the budget or makes completion or answering easier. |
| `Planning.HardCodedProposal` | crates/vesc-knowledge-index/src/planning.rs:182-199 | The baseline queries, in key order. |
| `Planning.HardCodedFacts` | crates/vesc-knowledge-index/src/planning.rs:182-199 | The baseline asks about each missing facet, as that facet is spelled, and about nothing else. |
| `Pipeline.RunInvestigation` | crates/vesc-knowledge-index/src/pipeline.rs:165-349 | The executed run, loops and early exits included, has the result and the trace of the specified run. |
| `PipelineSafety.AdmitAllFacts` | crates/vesc-knowledge-index/src/pipeline.rs:242-276 | Admitting a round's items counts them exactly within the budget, never changes what is retained under an id, and retains only items with a signal, positive ranks, and a path of returned edges between obtainable ids. |
| `PipelineAdmission.RoundAcceptedIff` | crates/vesc-knowledge-index/src/pipeline.rs:228-276 | A round goes on exactly when its reply returns no more than a round may, calls and bytes stay within the budget, every item has a signal, positive ranks and a path of returned edges between ids held or returned, no longer than the budget allows, and no id stands for two items. |
| `PipelineAdmission.RefusalHasCause` | crates/vesc-knowledge-index/src/pipeline.rs:228-276 | A refused round reports one of seven errors, and each only when what it names has happened in the reply. |
| `PipelineSafety.RoundKeepsInvariant` | crates/vesc-knowledge-index/src/pipeline.rs:228-283 | One accepted round keeps the run invariant, counts exactly, and only adds. |
| `PipelineTheorems.RunIsChain` | crates/vesc-knowledge-index/src/pipeline.rs:165-349 | Every run is a chain of rounds, each following from the one before, that ends refused with the error of its last reply, or after a complete audit for want of a model call or as the draft is judged, or insufficient after the last round. |
| `PipelineOutcomes.RunSucceedsIff` | crates/vesc-knowledge-index/src/pipeline.rs:165-349 | A prepared run succeeds exactly when every reply was acceptable and, if the audit became complete, a model call was left and the draft says something, cites held evidence only and an answering item for every facet, and claims recorded relationships only; it answers exactly when the audit became complete. |
| `PipelineOutcomes.HeldIsReturned` | crates/vesc-knowledge-index/src/pipeline.rs:262-277 | What is held before a round is exactly what the rounds before it returned. |
| `PipelineOutcomes.RelationshipsInOrder` | crates/vesc-knowledge-index/src/pipeline.rs:200-281 | Recorded relationships are listed by source, target and kind, each once. |
| `PipelineOutcomes.DraftFaults` | crates/vesc-knowledge-index/src/pipeline.rs:290-323 | Each error about a draft is reported only when what it names is so; uncited facets are listed exactly and in order. |
| `PipelineTheorems.RunInvariant` | crates/vesc-knowledge-index/src/pipeline.rs:199-283 | Between any two rounds retained evidence and relationships only grow unchanged and nothing new goes missing. At each round's end a retained item has a signal, positive ranks and as many hops, within the budget, as path edges; every edge of its path is recorded and joins two retained ids; and the recorded audit is the audit of what is held. |
| `PipelineTheorems.EveryRequestAsks` | crates/vesc-knowledge-index/src/pipeline.rs:203-227 | Every request of a run, the first included, reports what the audit of the evidence held at that moment misses, holds the spelled-out query of each missing facet and the models' own queries about missing facets and no others, and offers exactly the context bytes left. |
| `PipelineTheorems.RequestQueriesOrdered` | crates/vesc-knowledge-index/src/pipeline.rs:212-216 | The queries of a request come in order of facet and text, each once. |
| `PipelineTheorems.AnswererIsGated` | crates/vesc-knowledge-index/src/pipeline.rs:284-290 | The answerer is called only after a complete audit of the very evidence it is given, complete under the caller's contract too, and within the call budget. |
| `PipelineTheorems.AnswerIsGrounded` | crates/vesc-knowledge-index/src/pipeline.rs:290-323 | An answered run cites only retained evidence, a qualifying item for every facet of the caller's contract, and claims only recorded relationships. |
| `PipelineTheorems.InsufficiencyIsExhaustion` | crates/vesc-knowledge-index/src/pipeline.rs:326-348 | Insufficiency comes only after exactly the allowed rounds, all incomplete, without a call of the answerer, and suggests one query for every missing facet and relationship and no others. |
| `PipelineTheorems.CountersExact` | crates/vesc-knowledge-index/src/pipeline.rs:234-265 | The counters are the exact sums over everything returned; saturation never hides an overrun. |
| `PipelineTheorems.BudgetsHold` | crates/vesc-knowledge-index/src/pipeline.rs:175-288 | On every outcome rounds, candidates per round, context bytes, hops and model calls (the answer call included) are within the caller's budget, and counted bytes bound the bytes retained. |
| `Lifecycle.FirstUsableIsFirst` | crates/vesc-knowledge-index/src/lifecycle.rs:1824-1850 | The name search finds the first of the 33 names that is free or valid, and none exactly when all are taken and invalid. |
| `Lifecycle.GenerationValidIff` | crates/vesc-knowledge-index/src/lifecycle.rs:1939-1980 | An existing generation is accepted exactly when its manifest parses to the expected one and, for each checksum recorded, the file is there and matches: lexical digest and opening, vectors, and for the graph digest, decoding, corpus and counts. |
| `Lifecycle.ObjectionIff` | crates/vesc-knowledge-index/src/lifecycle.rs:1761-1823 | Nothing is wrong with a staged build exactly when its manifest is well formed, its files have the reported sizes, the lexical file opens, the vectors are as many as the chunks, and a recorded graph is intact. |
| `Lifecycle.CandidateNames` | crates/vesc-knowledge-index/src/lifecycle.rs:1824-1836 | The first name tried is the digest of the printed manifest; that of a repair is the digest of a text that spells that digest and the attempt. |
| `Lifecycle.RepairTextsDiffer` | crates/vesc-knowledge-index/src/lifecycle.rs:1824-1836 | Such texts are the same only for the same digest and attempt. |
| `Lifecycle.PublishedIff` | crates/vesc-knowledge-index/src/lifecycle.rs:1761-1850 | A publication succeeds exactly when the build can be published and one of the 33 names is free or holds an intact copy, and takes the first such name; a generation failing any one check is never the name returned. |
| `Lifecycle.PublishedFacts` | crates/vesc-knowledge-index/src/lifecycle.rs:1824-1855 | It keeps every generation, adds at most one, and selects the one it reports by the digest of the printed manifest; a name that was there holds an intact copy, a new one the printed manifest and the staged files. |
| `Lifecycle.SelectedIff` | crates/vesc-knowledge-index/src/lifecycle.rs:2166-2184 | A generation is selected exactly when the pointer has schema 1, names it and records the digest of its manifest; a manifest is read exactly when those bytes parse to it and it is well formed. |
| `Lifecycle.PublishedIsReadable` | crates/vesc-knowledge-index/src/lifecycle.rs:2166-2184 | What was published can be read back exactly when the bytes under its name have the checksum of the manifest's printed form, as in a new generation. |
| `Lifecycle.FreshGenerationValidIff` | crates/vesc-knowledge-index/src/lifecycle.rs:1815-1823 | A newly placed generation passes later validation exactly when its lexical file has the recorded digest and its vectors pass, which staging does not check. |
| `Lifecycle.RepublishFindsIt` | crates/vesc-knowledge-index/src/lifecycle.rs:1824-1850 | Publishing a valid generation again finds the same name and leaves the same disk. |
| `Lifecycle.LoaderAgrees` | crates/vesc-knowledge-index/src/lifecycle.rs:2136-2164 | For every file that decodes: loading (which re-encodes) and validation (which digests the file) accept alike exactly when, for a graph matching the manifest, its checksum is the file's just when it is the re-encoded graph's; the two byte strings are the same exactly on schema minor 0. |
| `Lifecycle.LoaderDisagrees` | crates/vesc-knowledge-index/src/lifecycle.rs:2136-2164 | On a file of another minor whose digest does not collide they disagree both ways, each under its own checksum. |
| `Publication.ArtifactRoot.Publish` | crates/vesc-knowledge-index/src/lifecycle.rs:1761-1872 | The publication routine leaves the specified disk, and every state on its way is a step of the crash machine. |
| `Publication.RunSafe` | crates/vesc-knowledge-index/src/lifecycle.rs:1824-1855 | Every run of steps, crashes and damage to non-manifest files keeps the publication invariant. |
| `Publication.CrashSafe` | crates/vesc-knowledge-index/src/lifecycle.rs:2166-2184 | In every reachable state an active pointer selects an existing generation whose manifest has the recorded checksum and is readable. |
| `Publication.GenerationsPersist` | crates/vesc-knowledge-index/src/lifecycle.rs:1826-1843 | No run removes a generation or changes its manifest, and only damage to it changes its files. |
| `Publication.OldOrNew` | crates/vesc-knowledge-index/src/lifecycle.rs:1851-1855 | A publication cut short anywhere leaves the old selection or the new one. |
| `Fusion.JoinedFacts` | crates/vesc-knowledge-index/src/fusion.rs:236-262 | Who is a candidate, with which ranks, score and exactness, for all input lists. |
| `Fusion.ScoreIsFormula` | crates/vesc-knowledge-index/src/fusion.rs:239-262 | A score is the reciprocal-rank formula of its two ranks exactly when the id occurs at most once in each list. |
| `FusionMeaning.ScoreMeaning` | crates/vesc-knowledge-index/src/fusion.rs:239-262 | A candidate once in one list and in no other scores the number whose product with the smoothing constant plus its rank is 1; once in each, the sum of two such numbers. |
| `FusionMeaning.RrfDecreases` | crates/vesc-knowledge-index/src/fusion.rs:246-260 | Later places contribute strictly less, up to the 32-bit cap. |
| `FusionMeaning.BetterRankFirst` | crates/vesc-knowledge-index/src/fusion.rs:230-336 | Of two outputs alike in exactness, registration and protection, each once in one list and in no other, the better ranked comes first. |
| `FusionMeaning.FieldsMeaning` | crates/vesc-knowledge-index/src/fusion.rs:239-261 | A candidate's metadata is that of its first lexical hit or of the known chunk; its lexical score is that of its last hit, its similarity that of the semantic hit it is ranked by. |
| `FusionMeaning.CompareMeaning` | crates/vesc-knowledge-index/src/fusion.rs:265-312 | One candidate precedes another by exactness, lexical rank among exact ones, registration, the lexical floor and the rank within it, score, and chunk id, in that order, written out. |
| `FusionMeaning.FusedInOrder` | crates/vesc-knowledge-index/src/fusion.rs:230-336 | The output is in that order. |
| `Fusion.RepeatedHitBreaksFormula` | crates/vesc-knowledge-index/src/fusion.rs:239-246 | One lexical hit listed twice scores more than the formula of its rank. |
| `Fusion.CompareIsKeyOrder` | crates/vesc-knowledge-index/src/fusion.rs:265-312 | The seven conditional levels compare as one lexicographic key followed by the chunk id. |
| `Fusion.ComparatorIsTotalOrder` | crates/vesc-knowledge-index/src/fusion.rs:265-312 | The comparator is a total preorder that ties only candidates with the same chunk id. |
| `Selection.SelectDiverse` | crates/vesc-knowledge-index/src/fusion.rs:314-335 | The loop with its counters makes the specified selection. |
| `Selection.SelectionFacts` | crates/vesc-knowledge-index/src/fusion.rs:314-335 | The output is an increasing choice of places obeying the limit, the document cap and digest uniqueness; whatever was passed over was blocked by earlier outputs; a smaller limit gives a prefix. |
| `Selection.PickedIffAdmitted` | crates/vesc-knowledge-index/src/fusion.rs:317-334 | A candidate is taken exactly when it was admissible after the earlier ones. |
| `Hydration.FuseCandidateMetadata` | crates/vesc-knowledge-index/src/fusion.rs:230-336 | The whole fusion computes the specified selection from the ordered, joined candidates. |
| `Hydration.OrderedFacts` | crates/vesc-knowledge-index/src/fusion.rs:264-312 | The ordered candidates are the joined ones, each once, in strictly ascending order. |
| `Hydration.FusedFacts` | crates/vesc-knowledge-index/src/fusion.rs:230-336 | The output is made of joined candidates in strictly ascending order. |
| `Hydration.FuseCandidates` | crates/vesc-knowledge-index/src/fusion.rs:173-223 | Hydration by map lookups computes the specified hits. |
| `Hydration.HydrationDropsNothing` | crates/vesc-knowledge-index/src/fusion.rs:207-222 | Every fused candidate gets a chunk of its own id, in the same order. |
| `Context.WalkFacts` | crates/vesc-knowledge-index/src/fusion.rs:96-121 | A walk along possibly cyclic links meets known passages of the document once each, consecutively linked, and stops early only at a dead end or a passage met before. |
| `Context.NeighborFacts` | crates/vesc-knowledge-index/src/fusion.rs:94-122 | Neighbors are at most twice the bound, distinct, of the anchor's document, and never the anchor. |
| `Context.ReadingOrder` | crates/vesc-knowledge-index/src/fusion.rs:94-122 | The neighbors in reading order: those that previous links lead back to, the farthest first, then those that next links lead on to, at most the bound of each, and fewer only where the link is missing, unknown, of another document, or met already. |
| `Context.Collect` | crates/vesc-knowledge-index/src/fusion.rs:94-122 | The two loops collect the neighbors in reading order. |
| `Context.AppendBoundedPiece` | crates/vesc-knowledge-index/src/fusion.rs:152-169 | Appends a whole piece with its separator, or cuts a first piece at the last character boundary that fits. |
| `Context.CutKeepsFirstCharacter` | crates/vesc-knowledge-index/src/fusion.rs:161-166 | A cut keeps something exactly when the first character fits. |
| `Context.ExpandAdjacentContext` | crates/vesc-knowledge-index/src/fusion.rs:80-150 | The expansion loop computes the specified context. |
| `Context.ExpansionShape` | crates/vesc-knowledge-index/src/fusion.rs:123-149 | Within budget; if the anchor's first character fits, the longest fitting anchor prefix, then the longest run of neighbors that fits, whole and separated, with a truthful reason. |
| `Context.AnchorLeavesNoTrace` | crates/vesc-knowledge-index/src/fusion.rs:123-137 | Otherwise the passage is what the neighbors alone fill. |
| `Context.NeighborWithoutAnchor` | crates/vesc-knowledge-index/src/fusion.rs:123-137 | A concrete input whose passage is a neighbor without its anchor. |
| `Retention.RetainPerFacet` | crates/vesc-knowledge-index/src/reranking.rs:93-144 | The nested loops, sort, deduplication and quota compute the specified rows. |
| `RankedRows.BestFacts` | crates/vesc-knowledge-index/src/reranking.rs:120-142 | At most the quota, best first, from the facet's rows; a row left out is represented by one no worse with its id, or the quota is full of rows no worse; rows sharing an id differ in score. |
| `RankedRows.RankedDistinctIff` | crates/vesc-knowledge-index/src/reranking.rs:120-129 | Adjacent deduplication leaves different ids exactly when no row of another id lies between two rows of one id. |
| `RankedRows.BestDistinctIff` | crates/vesc-knowledge-index/src/reranking.rs:120-142 | The kept rows have different ids exactly when no two leading rows of one id stand within the quota. |
| `RankedRows.RepeatedIdIsKept` | crates/vesc-knowledge-index/src/reranking.rs:120-129 | Three rows of which the first and the last share an id, all kept. |
| `Standing.BestByStanding` | crates/vesc-knowledge-index/src/reranking.rs:120-142 | Sorting, deduplication and quota keep exactly the rows with fewer than the quota of leading rows before them, counted on the unsorted rows, each at the place of that count. |
| `Standing.UnrepeatedRowsLead` | crates/vesc-knowledge-index/src/reranking.rs:120-142 | Where no id is repeated that count is simply the number of rows before it. |
| `RetentionTheorems.RetentionFacts` | crates/vesc-knowledge-index/src/reranking.rs:119-143 | The result is exactly, for every facet, its kept candidates ranked from 1. |
| `RetentionTheorems.RetainedIsEligible` | crates/vesc-knowledge-index/src/reranking.rs:99-117 | What is retained for a facet is a given candidate with finite scores, of the facet's repository and stage, and at its revision when it names one. |
| `RetentionTheorems.BetterScoreRanksHigher` | crates/vesc-knowledge-index/src/reranking.rs:76-128 | Of two retained for one facet the better ranked has the higher rerank score, or retrieval score where none was given; or an equal one and the higher retrieval score; or both equal and the smaller id. |
| `RetentionTheorems.QuotaBounds` | crates/vesc-knowledge-index/src/reranking.rs:28-38 | A quota is accepted from 1 to 4, so no facet keeps more than four rows. |
| `RetentionTheorems.RetentionOrdered` | crates/vesc-knowledge-index/src/reranking.rs:119-143 | The output is grouped by ascending facet id, each group by ascending rank, with no row twice. |
| `RetentionTheorems.OneRowPerId` | crates/vesc-knowledge-index/src/reranking.rs:119-143 | No facet lists an evidence id twice, exactly when in no facet two rows of one id lead within the quota. |
| `RetentionTheorems.FacetsAreIndependent` | crates/vesc-knowledge-index/src/reranking.rs:99-117 | A facet's rows depend only on its own matching candidates. |
| `RetentionTheorems.SupportAfterRetention` | crates/vesc-knowledge-index/src/reranking.rs:93-144 | After retention a facet is supported exactly when a usable candidate that it accepts leads, among the candidates of some facet, with fewer than the quota of leading rows before it. |
| `RetentionTheorems.RetentionAddsNoSupport` | crates/vesc-knowledge-index/src/reranking.rs:93-144 | Retention adds no support. |
| `RetentionTheorems.MissingFacetsKeptIff` | crates/vesc-knowledge-index/src/reranking.rs:93-144 | The audit's missing facets are the same before and after exactly when, for every facet supported before, such a candidate exists: a condition on the candidates alone. |
| `RetentionTheorems.RetentionKeepsMissingFacets` | crates/vesc-knowledge-index/src/reranking.rs:93-144 | With all candidates scored, decisive and of non-blank path, the audit's missing facets are the same before and after. |
| `RetentionTheorems.DisplacedFacetGoesMissing` | crates/vesc-knowledge-index/src/reranking.rs:93-144 | Otherwise a better-scored candidate that supports nothing can make a facet go missing. |
| `Evaluation.NdcgBounded` | crates/vesc-knowledge-index/src/evaluation.rs:389-417 | nDCG@10 of a ranking whose gain is dominated by the ideal's at every prefix lies in [0, 1], and is 1 exactly when something is relevant and the first ten results gain what an ideal ordering does, place by place. |
| `Evaluation.NdcgBoundedIff` | crates/vesc-knowledge-index/src/evaluation.rs:389-417 | nDCG@10 is at most 1 for every increasing logarithm exactly when the gain is dominated at every prefix. |
| `Evaluation.UnrepeatedIsBounded` | crates/vesc-knowledge-index/src/evaluation.rs:389-417 | A ranking that repeats no relevant result in its first ten has dominated gain, so its nDCG@10 lies in [0, 1]. |
| `Evaluation.SummationByParts` | crates/vesc-knowledge-index/src/evaluation.rs:397-411 | Dominated prefix sums discount to no more, and to as much only when all prefix sums agree. |
| `Evaluation.IdealDominates` | crates/vesc-knowledge-index/src/evaluation.rs:389-411 | However far one looks, the ranking has gathered no more gain than the ideal. |
| `Evaluation.RecallBounded` | crates/vesc-knowledge-index/src/evaluation.rs:359-384 | 0 <= recall@5 <= recall@10, and recall@10 <= 1 exactly when the first ten hold no more relevant results than there are relevant ids, as when none is repeated. |
| `Evaluation.ReciprocalRankFacts` | crates/vesc-knowledge-index/src/evaluation.rs:385-388 | The reciprocal rank is 0 or between a tenth and 1, positive exactly when something relevant was found, 1 exactly when the first result is relevant. |
| `EvaluationMeaning.ReciprocalRankMeaning` | crates/vesc-knowledge-index/src/evaluation.rs:385-388 | The reciprocal rank times the place, from 1, of the first relevant result among the first ten is 1; without one it is 0. |
| `EvaluationMeaning.RecallMeaning` | crates/vesc-knowledge-index/src/evaluation.rs:359-384 | Recall at 5 and at 10 times the number of relevant ids is the number of places to that depth with a relevant result. |
| `EvaluationMeaning.IdealMeaning` | crates/vesc-knowledge-index/src/evaluation.rs:389-395 | The ideal ordering lists the grade of every relevant id, as often as ids have it, best first. |
| `EvaluationMeaning.DiscountedMeaning` | crates/vesc-knowledge-index/src/evaluation.rs:396-404 | Each further result adds its gain, 0 when unjudged, divided by the logarithm of its place plus 2. |
| `EvaluationMeaning.GainMeaning` | crates/vesc-knowledge-index/src/evaluation.rs:396-411 | The gain of a grade is one less than two to the grade, as the doubling recurrence fixes it. |
| `EvaluationMeaning.DiscountedGainsMeaning` | crates/vesc-knowledge-index/src/evaluation.rs:405-411 | So it is for the ideal ordering: each grade adds its gain divided by the logarithm of its place plus 2. |
| `EvaluationMeaning.NdcgMeaning` | crates/vesc-knowledge-index/src/evaluation.rs:389-417 | nDCG@10 times the ideal's discounted gain is that of the first ten results; the ideal's is positive exactly when something is relevant. |
| `Evaluation.RepetitionExceedsOne` | crates/vesc-knowledge-index/src/evaluation.rs:397-417 | One result of grade 1, the only judged id, ranked twice gives nDCG and recall above 1. |
| `GitFilter.BaseIsRevisionIffAncestor` | crates/vesc-knowledge-index/src/lexical.rs:332-343 | Whichever best common ancestor is found, it equals the revision exactly when the revision is an ancestor of the tip. |
| `GitFilter.AncestorSteps` | crates/vesc-knowledge-index/src/lexical.rs:332-343 | Ancestry is the reachability along parents on which the test relies: a commit's ancestors are itself and those of its parents. |
| `GitFilter.AncestorIsBest` | crates/vesc-knowledge-index/src/lexical.rs:332-343 | In a history without cycles an ancestor of the tip is itself a best common ancestor of both, so the library can answer as assumed. |
| `GitFilter.AnswerIsAncestry` | crates/vesc-knowledge-index/src/lexical.rs:328-343 | Without a library error the computed answer is ancestry. |
| `GitFilter.GitReachability.Contains` | crates/vesc-knowledge-index/src/lexical.rs:316-347 | Without a recorded error the answer is ancestry, cached or not; a failure is recorded once, answers no and is not cached. |
| `GitFilter.GitReachability.ContainsAll` | crates/vesc-knowledge-index/src/lexical.rs:316-347 | Any sequence of tests that leaves no error has answered every revision with its ancestry. |
| `GitFilter.FiltersAgree` | crates/vesc-knowledge-index/src/lexical.rs:242-296 | The byte-key filter decides as the locator filter for every filter exactly when the repository name has no NUL byte. |
| `GitFilter.DecisionIff` | crates/vesc-knowledge-index/src/lexical.rs:242-296 | On a NUL-free name both filters accept exactly the requested repository, and ask about a revision exactly when another name comes from Git, is a candidate, ancestry can be tested and the revision parses. |
| `GitFilter.NulNameDisagrees` | crates/vesc-knowledge-index/src/lexical.rs:242-296 | A name with a NUL byte on which the two filters decide differently. |
| `GitFilter.KeySplits` | crates/vesc-knowledge-index/src/lexical.rs:3375-3391 | A key built from a NUL-free name splits back into its name and revision. |
| `JsonArray.FirstNonWhitespace` | crates/vesc-knowledge-index/src/lexical.rs:672-684 | Finds the first byte that is not white space. |
| `JsonArray.LastNonWhitespace` | crates/vesc-knowledge-index/src/lexical.rs:686-697 | Finds the last byte that is not white space. |
| `JsonArray.HasNonWhitespace` | crates/vesc-knowledge-index/src/lexical.rs:699-722 | The buffered scan decides whether a stretch holds anything but white space. |
| `JsonArray.Append` | crates/vesc-knowledge-index/src/lexical.rs:619-660 | Accepts exactly the files that can be reopened and copies them up to the closing bracket. |
| `JsonArray.ReopensIff` | crates/vesc-knowledge-index/src/lexical.rs:619-650 | A file can be reopened exactly when it is bracketed and framed by white space or form feeds, and framed as the JSON grammar wants exactly when no form feed frames it. |
| `JsonArray.FormFeedIsAccepted` | crates/vesc-knowledge-index/src/lexical.rs:672-697 | A form feed before the array is accepted. |
| `JsonArray.JsonArrayWriter.Push` | crates/vesc-knowledge-index/src/lexical.rs:607-617 | Writes a comma before every item but the first. |
| `JsonArray.FreshWriter` | crates/vesc-knowledge-index/src/lexical.rs:594-669 | Creating, pushing and finishing gives the bracketed, comma-separated items. |
| `JsonArray.AppendIsConcatenation` | crates/vesc-knowledge-index/src/lexical.rs:619-669 | Appending ys to the file of xs gives, byte for byte, the file of xs + ys for every ys, exactly when the file of xs is not one item printed as white space. |
| `PerfData.Report.AddSample` | scripts/parse_perfdata.rs:14-31 | Counts a chain once for its leaf, its category and each function in it. |
| `PerfData.ParsePerfScript` | scripts/parse_perfdata.rs:82-102 | The streaming loop reports the fold of the non-empty frame blocks. |
| `PerfData.StreamIsFold` | scripts/parse_perfdata.rs:82-102 | From any pending frames, streaming the rest counts what splitting and folding it counts. |
| `PerfData.ReportConserves` | scripts/parse_perfdata.rs:14-31 | Self counts and category counts each sum to the samples, and self <= inclusive <= samples. |
| `PerfData.ReportIsExact` | scripts/parse_perfdata.rs:14-102 | Samples, self, inclusive and category counts are the numbers of chains, of chains led by or passing through a function, and of chains led by a category. |

## Left out

- GraphIndexer.BuildReverseIndex: the size limit is the one that the conversion of positions to 32 bits demands; beyond it the code panics.
- GraphLive.LiveGraphIsExact: takes from its caller that the id count is at least the number of distinct live ids, which holds because the set is collected from the counted list.
- RetentionTheorems.RetentionKeepsMissingFacets: its condition is sufficient, not necessary; `MissingFacetsKeptIff` gives the exact condition on the candidates.
- Evaluation.NdcgBoundedIff: exact for all increasing positive logarithms together; for the base-2 logarithm alone dominated gain is sufficient.
- GitFilter.GitReachability.Contains: the Git library's reply is an argument, assumed right whenever it is not an error.
- Publication.CrashSafe: concurrent publishers on one root, and damage that rewrites a manifest into other bytes of equal JSON, are outside the machine.
- PerfData.ParsePerfScript: the extraction of a symbol from a line and the table of categories are parameters; a read error that ends the input is not modelled.
- JsonArray.Append: file handles, seeking and buffering are not modelled; a file is its bytes.
- Context.ExpandAdjacentContext: chunks are looked up by the id the map gives them, as in the code; only the fields it reads are modelled.
- Rounding, signed zeros and the 32-bit width of scores and similarities.
- Byte sizes of generations beyond the lengths compared before publication, timing, and progress observations.
- Duplicate rate, diversity and grouped means of an evaluation report, and the checks of an evaluation suite; grades are assumed below 32, as the 32-bit power in the code demands.
- Tantivy, embedding and reranking models, Git object access, subprocesses and HTTP.
- Corpus chunking, history planning, vector files, configuration, Markdown and report printing.
- Query aliases, schema and field mapping, label parsing and hydration of lexical hits.
