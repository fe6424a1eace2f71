# Verified model of gracedb's algorithms

gracedb is an embedded knowledge store: a property graph, an RDF store with SPARQL queries and RDFS inference, vector
indexes, product quantization, text utilities and an agent memory. This project models its in-process algorithms in
Dafny and proves what they promise. Code that updates things step by step is a method or a class proved against a
specification; what the specification means is proved beside it, as lemmas over every input, every run or every
reachable state.

## What is proved

- **Property graph** (`PropertyGraph`, `Reachability`, `Traversal`, `DepthFirst`, `DepthBound`, `ShortestPath`). Edges
  are kept in a map and filed under both end points. Every run keeps them filed; the entries are truthful exactly as
  long as no edge ID is reused for another edge, and then the neighbours are those that the stored edges give, for every
  direction and choice of types. Over these entries BFS returns exactly the nodes at each distance, nearest first, and
  ShortestPath a shortest path or, exactly when there is none, nothing. What DFS returns depends on the order of the
  neighbours: for every order it stays within the depth bound, it reaches everything when no simple path is cut, and it
  is certain to report all nodes within its bound exactly when that is at most 2.
- **RDF store** (`RdfStore`, `Sparql`). Queries through an index are compared with a full scan, and the nested-loop join
  with the solutions of section 18.3 of SPARQL 1.1 Query Language. Where the two differ, the exact condition is given.
- **RDFS inference** (`RdfsRules`, `Rdfs`, `RdfsGrowth`, `RdfsRuns`, `RdfsLaws`). The passes for rdfs2, 3, 5, 7, 9 and
  11 of section 9.2.1 of RDF 1.1 Semantics are sound, complete in the limit, counted, bounded, and undone by a clear, as
  long as no two derivable facts differ only in the kind of a term. When two do, calls can overwrite each other's facts
  for ever; for stores in which nothing threatens the asserted facts, it is stated exactly when they do, and a clear
  still undoes the calls. Paths of subclasses double with every call. What a call that adds nothing has reached is a set
  of facts that obeys six laws, written out with the words of the vocabularies.
- **N-Triples** (`Text`, `NTriples`, `NTriplesLines`, `NTriplesExact`, `LineOrder`, `NTriplesDocuments`,
  `NTriplesCrashes`). Writing and reading the format of section 2 of RDF 1.1 N-Triples is a round trip for terms, and
  for lines, exactly under a stated condition on the terms, and for documents of such lines. The export does not depend
  on the order of the scan. The lines and documents that make the reader slice past their end are described exactly.
- **Quantization** (`KMeans`, `KMeansDescent`, `ProductQuantizer`). Clustering never makes the objective worse exactly
  when the vectors lie in a box whose diagonal the search for the nearest centroid can measure, encoding is optimal over
  all choices of centroids exactly when no centroid beyond the first 256 of a codebook is new, the distance to a code is
  that to the vector it decodes to, and decoding is stable.
- **Text utilities** (`EditDistance`, `Chunking`). The two-row program computes the length of the shortest edit script,
  which is a metric; the splitter loses nothing and cuts a bounded number of chunks, and it is stated for which sizes
  and overlaps a chunk can hold nothing but overlap.
- **Vector indexes** (`Ranking`, `FlatIndex`, `IdGroups`, `IvfIndex`, `LshIndex`, `HnswLayers`, `Hnsw`). Brute force is
  the reference. IVF with all clusters probed ranks like it; LSH finds a stored vector again, and a vector and its
  positive multiples share every bucket; HNSW keeps its structure over every run, and what its search returns is
  determined exactly.
- **Memory store** (`VectorCodec`, `MemoryFts`, `MemoryVectors`, `MemoryFiling`, `MemoryStore`). Over every run the word
  index holds exactly the capped term counts of the stored texts, and each bucket's vector index exactly the stored
  vectors, so that the search shows the same scores with and without the index. What a second bucket for one ID leaves
  behind is stated exactly.

`Scans`, `Wrappers` and `MachineInts` hold what several of these share.

## How the code is modelled

- The key-value store is a set of maps and sets that never fail. A key that Go builds by joining strings with colons is a
  tuple or a datatype. Bucket names and IDs are assumed not to run into each other.
- A prefix scan or a range over a Go map goes through its entries in any order, so what is proved holds for every order.
- A generated triple ID is the triple of its three values: the hash behind it is taken to be injective.
- Floats are reals, except in `VectorCodec`, where a component is the bit pattern of a float. Where the code starts from
  the largest float, so does the model, and says when this matters.
- A Go string is a sequence of bytes in `EditDistance`, where the code indexes by byte, and of characters elsewhere. Where
  the N-Triples reader takes two bytes behind a literal, the model counts the bytes of the characters.
- Similarity, distance, word splitting, synonyms, hyperplanes, node levels and random draws are parameters. So are made-up
  IDs (`freshId`), the ID a memory is saved under, and what an IVF index finds under the ID of a removed vector
  (`missing`).
- Where an order that the code leaves open decides the outcome, as in the depth-first search and the passes of the
  inferencer, the possible outcomes are a relation: the method is proved to keep to it, and the results are about all of
  them.
- The six passes of the inferencer are two loops with the rule as a parameter: three passes read both lists first, three
  read the data triples anew for every schema triple.
- The layer search of HNSW exists twice in the code, once for an ID and once for a vector; the model has it once, for a
  vector. The sorting of the candidate list in one of them does not affect the map it returns.
- Numbers that a caller could pass as negative are natural numbers where Go would panic on a negative one: the number of
  results of the vector indexes, the number of links and of clusters.

## What the code does that one might not expect

- A reused edge ID leaves an entry under the old end point; deleting that node then deletes the new edge (`ReuseLies`).
- A query through the object index misses language-tagged literals and blank nodes (`ObjectIndexExactly`).
- Terms are compared without their datatype, so the join can overwrite a bound variable with another term
  (`DatatypesBreakTheJoin`, `JoinIsSoundExactly`).
- The domain and range rules may bring in rdf:type as a new term, so the bound on the number of facts counts it in.
- A depth-first search with a depth bound of 3 or more, and the default is 3, can miss a node within the bound, when it
  first meets a node on the short way over a longer one (`DetourMisses`, `BoundIsKeptExactly`).
- A literal at the end of an N-Triples statement followed by one stray byte makes the reader fail
  (`StrayCharacterCrashes`, `LineCrashesExactly`).
- A literal and an IRI of the same value can overwrite each other's conclusions in every call of the inferencer, which
  then counts them as new for ever (`TwinsNeverEnd`, `EndsExactly`).
- Clustering into one cluster returns the random vector it starts from, because no assignment ever changes; so does
  every start in which no vector is nearer to another centroid than to the first (`NoMoveExactly`).
- A vector that is out of range of all centroids is assigned to the first one, wherever the others are, which can make the
  clustering worse than its start (`FarIsWorse`, `NeverWorseExactly`).
- A written literal whose value ends in a backslash is never read back from its line: the closing quote is taken for an
  escaped one (`LineExactly`).
- With more than 256 centroids the byte of a code wraps (`LongCodebookWraps`, `EncodingIsOptimalExactly`).
- The splitter never breaks at a mark on the last position of a chunk. It appends a chunk that holds only overlap
  (`OverlapOnlyChunk`, `LastChunkIsOverlapExactly`), and with a large overlap inner chunks can repeat the one before them
  (`InnerChunksAddTextExactly`).
- An IVF or LSH index lists an ID twice when it is inserted again; training an IVF index repairs this (`Train`).
- Both search loops of HNSW skip every candidate, so a layer search returns its entry point only, every node is linked to
  the entry point only, and a search returns one result (`SearchLayer`, `Insert`, `Search`).
- Saving a memory again under another bucket leaves what the first bucket keeps, and deleting the memory does not remove it
  (`LeftBehindStays`).
- Updating a memory with a vector that is present but empty stores it and leaves the old one in the index
  (`PutAgreesExactly`).

## Model

| member | source | states |
|---|---|---|
| `PropertyGraph.GraphStore.UpsertNode` | pkg/graph/store.go:33-61 | the whole new state: the node record and its type entry, everything else unchanged; a missing ID is made up |
| `PropertyGraph.GraphStore.UpsertEdge` | pkg/graph/store.go:131-169 | the whole new state: the edge record and its from, to and type entries |
| `PropertyGraph.GraphStore.DeleteEdge` | pkg/graph/store.go:188-217 | the whole new state; deleting an unknown edge changes nothing |
| `PropertyGraph.GraphStore.DeleteNode` | pkg/graph/store.go:80-128 | the whole new state: the node, its own adjacency entries and every edge they name are gone, the mirror entries of those edges stay |
| `PropertyGraph.GraphStore.GetNeighbors` | pkg/graph/store.go:220-285 | for every option and every order of the scans: the stored edges of the collected IDs, in order, and their stored and wanted far ends, each at its first occurrence; without a limit these are all of them, a limit keeps the first IDs collected |
| `PropertyGraph.GraphStore.ScanEdgePrefix` | pkg/graph/store.go:287-315 | the entries under the keys of the node that pass the type filter, one for each key, in the order of some listing |
| `PropertyGraph.CollectedIsFound` | pkg/graph/store.go:220-285 | whatever the order, such an answer holds linked nodes only, each once, and edges that lead to them; without a limit all linked nodes and all these edges |
| `PropertyGraph.EveryRunIndexed` | pkg/graph/store.go:33-217 | after any run of updates every stored edge has both adjacency entries and its type entry |
| `PropertyGraph.EveryRunCoherent` | pkg/graph/store.go:33-217 | after any run that never uses an edge ID for two different edges, every entry of a live edge names its true end point and type |
| `PropertyGraph.CoherentExactly` | pkg/graph/store.go:131-217 | one update keeps the indexes truthful if and only if it is not an edge upsert whose ID is still filed under another end point or type |
| `PropertyGraph.ReuseLies` | pkg/graph/store.go:80-169 | a concrete run in which a reused edge ID is filed under the wrong node and is deleted with that node |
| `PropertyGraph.DeletedNodeIsGone` | pkg/graph/store.go:80-128 | after DeleteNode no neighbour query with any options leads to the node or over one of its edges |
| `PropertyGraph.DeleteNodeExactly` | pkg/graph/store.go:80-128 | in any store DeleteNode removes the node, the entries filed under it and all its edges, and leaves other nodes, entries and edges it keeps unchanged; it removes no other edge if and only if the entries filed under the node are truthful |
| `PropertyGraph.CoherentNeighbours` | pkg/graph/store.go:220-315 | in a truthful store a query leads over exactly the stored edges of a listed type, or of any type if none is listed, that leave the node, enter it, or either, as the direction says |
| `PropertyGraph.CoherentLinks` | pkg/graph/store.go:220-285 | in a truthful store the neighbours are exactly the stored nodes of a listed type, or of any type if none is listed, that are the To ends of these edges; the From ends for incoming queries |
| `PropertyGraph.UpsertNodeExactly` | pkg/graph/store.go:33-61 | the stored record is the given one field by field; the type index gains one pair, and no query leads over other edges than before |
| `PropertyGraph.UpsertEdgeExactly` | pkg/graph/store.go:131-169 | the stored record is the given one field by field, filed under both its ends; other records and entries stay |
| `PropertyGraph.NewEdgeIsFollowed` | pkg/graph/store.go:131-169 | queries whose direction and types admit the new edge lead over it from its own ends, and over other edges as before |
| `PropertyGraph.DeleteEdgeExactly` | pkg/graph/store.go:188-217 | the edge is gone with its type entry and, in a truthful store, every entry that carries its ID; the records and entries of other edges stay |
| `PropertyGraph.DeletedEdgeIsGone` | pkg/graph/store.go:188-217 | after DeleteEdge no query leads over the edge, and over every other edge queries lead as before |
| `Reachability.WithinIffShortPath` | pkg/graph/traversal.go:4-51 | being within d steps is the same as having a path of at most d links; the yardstick of all three searches |
| `Traversal.BFS` | pkg/graph/traversal.go:4-51 | without a limit exactly the nodes at distance 1 to the maximal depth, once each, in order of distance; with a limit still only stored nodes within that depth, once each; the edges are stored ones that queries of nodes at less than the maximal depth return, and without a limit, in a truthful store, exactly these |
| `Traversal.ExpandLevel` | pkg/graph/traversal.go:19-44 | one round of the search turns the nodes at exactly depth d into those at exactly depth d + 1 |
| `Traversal.DeduplicateNodes` | pkg/graph/traversal.go:173-183 | the nodes with the first occurrence of each ID kept, in order |
| `Traversal.DeduplicatedIds` | pkg/graph/traversal.go:173-183 | that selection has the same IDs as the list it came from, each once |
| `Traversal.DepthExactly` | pkg/graph/traversal.go:5-7 | a search whose maximal depth is not positive has three levels |
| `DepthFirst.Visit` | pkg/graph/traversal.go:64-84 | the recursive closure visits and reports what some order of the neighbours makes the search visit and report: visited guard, depth guard, a neighbour reported before it is visited |
| `DepthFirst.DFS` | pkg/graph/traversal.go:54-98 | stored nodes, each once, and the IDs that some order of the neighbours makes a search report; so only nodes within the maximal depth, without a limit all of them if that is at most 2, and exactly the reachable ones when no path from the start that repeats no node has more links than the bound; edges that queries of the start or of these nodes return |
| `DepthFirst.SearchIsSound` | pkg/graph/traversal.go:54-98 | for every order of the neighbours and every limit, reported nodes lie within the maximal depth |
| `DepthFirst.RoomySearchIsComplete` | pkg/graph/traversal.go:54-98 | for every order, a search without a limit reports every stored node that can be reached, when no path from the start that repeats no node has more links than the bound |
| `DepthFirst.ManyLevelsAreRoomy` | pkg/graph/traversal.go:54-98 | as many levels as there are stored nodes besides the start are always enough for that |
| `DepthFirst.ShallowSearchIsComplete` | pkg/graph/traversal.go:54-98 | for every order, a search without a limit and with one or two levels reports every stored node within its bound |
| `DepthBound.BoundIsKeptExactly` | pkg/graph/traversal.go:54-98 | in every reachable store and for every order, searches without a limit and with d levels report every stored node within d links, if and only if d is at most 2 |
| `DepthBound.DetourMisses` | pkg/graph/traversal.go:54-98 | for every d of at least 3 a store, built by upserts, in which a search with d levels does not report a node d links away: it first meets a node of the short way over a longer one |
| `ShortestPath.Find` | pkg/graph/traversal.go:101-165 | no result if and only if no path of out-links joins the nodes; otherwise a path none is shorter than, with edge i joining node i to node i + 1; the search loop ends |
| `ShortestPath.WalkBack` | pkg/graph/traversal.go:120-140 | the walk along the parents ends and yields a path of the depth recorded for the target |
| `ShortestPath.FindEdgeTo` | pkg/graph/traversal.go:152-158 | the edge recorded for a step does lead from its source to its target |
| `ShortestPath.JoinsIsFromTo` | pkg/graph/traversal.go:101-171 | in a truthful store an edge joins a to b exactly when its From end is a and its To end is b |
| `RdfStore.Store.UpsertTriple` | pkg/rdf/store.go:99-127 | the whole new state: the record and its index entries; entries of a replaced record stay |
| `RdfStore.Store.DeleteTriple` | pkg/rdf/store.go:130-160 | the whole new state, and whether the ID was found |
| `RdfStore.Store.Query` | pkg/rdf/store.go:163-208 | the matching records that the chosen index lists, different ones, all of them or the first Limit |
| `RdfStore.EveryRunFiled` | pkg/rdf/store.go:99-160 | after any run every record is stored under its own ID and listed by the indexes of its terms |
| `RdfStore.UpsertTripleExactly` | pkg/rdf/store.go:99-127 | the stored record is the given one; it is listed under its IRIs, and under an object literal with its language tag behind an at sign; nothing else changes |
| `RdfStore.DeleteTripleExactly` | pkg/rdf/store.go:130-160 | the record is gone with the entries of its terms; the records and entries of other IDs stay |
| `RdfStore.DeletedTripleIsGone` | pkg/rdf/store.go:130-160 | after a deletion every query finds the other records as before, and not the deleted one |
| `RdfStore.FullScanExactly` | pkg/rdf/store.go:391-408 | a scan finds exactly the records whose terms have the kinds and values that the pattern gives, and its graph name and mark |
| `RdfStore.IndexAgreesWithScan` | pkg/rdf/store.go:163-208 | in every such store a query through the subject index, the predicate index or no index finds exactly what a full scan finds |
| `RdfStore.ObjectIndexExactly` | pkg/rdf/store.go:163-208 | a query through the object index never finds too much; without stale entries it finds everything if and only if all matches have an index key and the language of the pattern |
| `RdfStore.TaggedLiteralMissed` | pkg/rdf/store.go:391-437 | a concrete store in which a plain pattern misses a language-tagged literal that it matches |
| `RdfStore.ObjectsCurrentExactly` | pkg/rdf/store.go:99-127 | an update leaves no stale object entry of a live record if and only if no entry of its ID has another key |
| `RdfStore.NewIriIsPlain` | pkg/rdf/store.go:57-59 | a name without brackets at its ends is not changed by NewIRI |
| `Sparql.Select` | pkg/rdf/store.go:211-278 | in any store, before projection, exactly the chains of matches of the patterns, one extending the other; a row binds exactly the requested variables of its match, to the same terms; on a crisp store the matches are exactly the solutions, each once, and a row is shown if and only if some solution agrees with it on the requested variables; no pattern, no rows |
| `Sparql.Ask` | pkg/rdf/store.go:281-287 | a yes means a solution up to datatypes and language tags in any store; where objects have index keys and no language, a no means there is none; on a crisp store true if and only if there are patterns and a solution |
| `Sparql.OrderDoesNotMatter` | pkg/rdf/store.go:211-278 | the set of solutions does not depend on order or repetition of the patterns |
| `Sparql.JoinOne` | pkg/rdf/store.go:223-261 | in any store, exactly the extensions of the bindings by one more pattern; on a crisp store all solutions of the patterns before become all solutions with it, each once |
| `Sparql.ChainIsLooseSolution` | pkg/rdf/store.go:211-278 | in any store every row gives each pattern an instance in the store, when terms are compared by kind and value |
| `Sparql.LooseSolutionIsChain` | pkg/rdf/store.go:211-278 | where objects have index keys and no language, every such assignment is a row, up to datatypes and language tags |
| `Sparql.NothingMissedExactly` | pkg/rdf/store.go:163-278 | with generated IDs and no stale object entries, no such assignment of any pattern is missed if and only if every object has an index key and no language |
| `Sparql.JoinIsSoundExactly` | pkg/rdf/store.go:211-278 | with generated IDs and plain objects, all rows of all two-pattern joins are solutions if and only if terms of equal kind and value in the same position are equal |
| `Sparql.DatatypesBreakTheJoin` | pkg/rdf/store.go:211-278 | a concrete store with one value in two datatypes on which the order of patterns changes the row and the row is no solution |
| `RdfsRules.LeastClosedIsDerivable` | pkg/rdf/rdfs.go:94-302 | a closed superset that adds only derived facts holds exactly the facts with a proof tree over the six rules |
| `RdfsRules.IdlePassMeansClosed` | pkg/rdf/rdfs.go:26-78 | a run that ends with a call adding nothing ends in a closed superset of its start that holds only derived facts |
| `RdfsRules.ProductiveRunIsBounded` | pkg/rdf/rdfs.go:26-78 | calls that keep adding facts are at most as many as the cube of the number of terms, the IRIs made of their values and rdf:type counted in |
| `RdfsRules.PathDoubling` | pkg/rdf/rdfs.go:94-135 | after k steps two different classes joined by a path of at most 2^k subClassOf links are related |
| `RdfsRules.ClosureIsLeast` | pkg/rdf/rdfs.go:94-302 | the facts with a proof tree are finitely many and are the least closed superset of the asserted ones |
| `RdfsRules.PlainTermsRebuilt` | pkg/rdf/rdfs.go:94-302 | when all terms are IRIs without brackets, rdf:type is the only term that the rules can bring in |
| `Rdfs.Inferencer.Exists` | pkg/rdf/rdfs.go:304-322 | in any store, true exactly when a query finds the triple; then it is stored; and a stored triple is found if its subject or predicate is an IRI |
| `Rdfs.Inferencer.Add` | pkg/rdf/rdfs.go:125-130 | in any store, a triple that is not found is stored, marked as inferred, and counted; one that is found changes nothing |
| `Rdfs.Inferencer.ChainPass` | pkg/rdf/rdfs.go:94-202 | in any store, one pass of a transitive rule: every pair of triples from two lists read before the pass is joined in turn |
| `Rdfs.Inferencer.UsePass` | pkg/rdf/rdfs.go:204-302 | in any store, one pass over data triples, which are read anew for every schema triple |
| `Rdfs.Inferencer.Infer` | pkg/rdf/rdfs.go:26-78 | in any store, one pass of each of the six rules in order; the count is the sum of theirs |
| `Rdfs.Inferencer.ClearInferred` | pkg/rdf/rdfs.go:81-92 | exactly the records not marked as inferred are left |
| `RdfsGrowth.InferAdds` | pkg/rdf/rdfs.go:26-302 | in any store a call is a sequence of additions of facts of every closed set that holds the stored facts; when no fact is lost, every conclusion of two facts at the start is stored at the end |
| `RdfsRuns.TameCall` | pkg/rdf/rdfs.go:26-78 | in a tame store, where no two derivable facts share their values but differ in the kind of a term, one call is one sound step of all six rules, keeps every record, adds as many inferred ones as it returns, and leaves the store tame |
| `RdfsRuns.ZeroMeansClosed` | pkg/rdf/rdfs.go:26-78 | in any store a call that returns 0 has changed nothing, and the stored facts are closed under the rules |
| `RdfsRuns.IriOnlyIsTame` | pkg/rdf/rdfs.go:26-78 | a store of plain IRIs with generated IDs is tame |
| `RdfsRuns.CountIsNewFacts` | pkg/rdf/rdfs.go:26-78 | in a tame store the returned count is the growth of the set of facts, and 0 if and only if no fact is new |
| `RdfsRuns.ClearUndoesInference` | pkg/rdf/rdfs.go:81-92 | from a store without inferred records in which no derivable fact shares its ID with a different stored one, any number of calls followed by a clear restores exactly the original records, whether or not the calls ever settle |
| `RdfsRuns.RepeatedInferEnds` | pkg/rdf/rdfs.go:26-78 | in a tame store calls that keep returning a positive count come to an end, within the cube of the number of terms |
| `RdfsRuns.IriOnlyEnds` | pkg/rdf/rdfs.go:26-78 | in a store of plain IRIs with generated IDs this is the cube of the number of stored terms and rdf:type |
| `RdfsRuns.ZeroCountIsFixpoint` | pkg/rdf/rdfs.go:26-78 | when a call in a run from a tame store returns 0, the stored facts are exactly those with a proof tree from the facts at the start |
| `RdfsRuns.CallsDoublePaths` | pkg/rdf/rdfs.go:94-135 | in a tame store k calls relate any two different classes joined by an asserted path of at most 2^k links |
| `RdfsRuns.FightNeverEnds` | pkg/rdf/rdfs.go:204-322 | when two facts that share an ID but differ in a kind are derivable from facts that nothing overwrites, no call of any run returns 0 |
| `RdfsRuns.EndsExactly` | pkg/rdf/rdfs.go:26-322 | with generated IDs and no rival to a stored fact, a long enough run of calls returns 0 at some point if and only if no two derivable facts share an ID |
| `RdfsRuns.TwinsNeverEnd` | pkg/rdf/rdfs.go:204-322 | a concrete store of four triples, with a literal and an IRI of the same value under two sub-properties of one property, on which no call ever returns 0 |
| `RdfsRuns.TwinsAreCleared` | pkg/rdf/rdfs.go:81-92 | any number of calls on such a store followed by a clear leave the four triples as they were |
| `RdfsLaws.ClosedExactly` | pkg/rdf/rdfs.go:94-302 | a set of facts is closed under the rules if and only if it obeys six laws that are spelled out with the words of the vocabularies, the self-loop guards and the rebuilt names included |
| `RdfsLaws.ZeroMeansLawful` | pkg/rdf/rdfs.go:26-302 | in any store, the facts stored after a call that returns 0 obey the six laws |
| `RdfsLaws.SettledStoreIsLeastLawful` | pkg/rdf/rdfs.go:26-302 | when a call in a run from a tame store returns 0, the records state exactly what is in every lawful set that contains the facts at the start |
| `RdfsLaws.TermsAreKept` | pkg/rdf/rdfs.go:137-302 | all rules but the first pass on the terms of their premises with datatypes and language tags |
| `NTriples.EscapeIsCharwise` | pkg/rdf/ntriples.go:189-194 | the three replacements of escapeLiteral together escape character by character |
| `NTriples.WrittenKindsDiffer` | pkg/rdf/ntriples.go:170-187 | the first character of a written term tells an IRI, a literal and a blank node apart |
| `NTriples.BlankNodeIsRefused` | pkg/rdf/ntriples.go:127-187 | a blank node is written with its own form, which the reader refuses |
| `NTriples.TermExactly` | pkg/rdf/ntriples.go:127-187 | a written term is read back if and only if it survives: a condition on its own text, for every kind of term and any language tag |
| `NTriplesLines.ParseTokens` | pkg/rdf/ntriples.go:56-125 | the index-moving scan computes the tokens of the recursive specification, or fails where that runs past the end |
| `NTriplesLines.OneByteExactly` | pkg/rdf/ntriples.go:94 | a character fits in one byte if and only if it is below code point 128; the two-byte slice overruns on such a character only |
| `NTriples.TagCharExactly` | pkg/rdf/ntriples.go:89 | a language tag ends at the first character that is no ASCII letter, digit or hyphen, given by code points |
| `NTriplesExact.LineExactly` | pkg/rdf/ntriples.go:15-125 | a written triple, whatever its terms, is read back, with the ID made from its values, if and only if its three terms are sturdy: they survive on their own and hold nothing that ends their token early |
| `NTriplesExact.TokenIsSturdy` | pkg/rdf/ntriples.go:56-187 | whatever the token at the head of a written term takes in, too little or too much, it is read as the term only if the term is sturdy |
| `NTriplesDocuments.ImportNTriples` | pkg/rdf/store.go:323-341 | the store and the outcome after all lines, or up to the first bad one |
| `NTriplesDocuments.ExportNTriples` | pkg/rdf/store.go:344-355 | one line for every stored triple, in sorted order |
| `NTriplesDocuments.ExportIsUnique` | pkg/rdf/store.go:344-355 | the exported text does not depend on the order in which the scan lists the triples |
| `LineOrder.SortLines` | pkg/rdf/store.go:353 | the lines rearranged in the order of their code points |
| `LineOrder.FirstDifference` | pkg/rdf/store.go:353 | behind a common beginning the shorter line comes first, or the one whose next code point is smaller |
| `LineOrder.SortedIsUnique` | pkg/rdf/store.go:353 | two sorted rearrangements of the same lines are equal |
| `NTriplesDocuments.DocumentImports` | pkg/rdf/store.go:323-341 | a document of exportable triples loads all of them, whatever the store held before |
| `NTriplesDocuments.ImportOfExport` | pkg/rdf/store.go:323-355 | importing an export into any store without triples rebuilds the same records but for graph names and inferred marks |
| `NTriplesCrashes.TokensCrashExactly` | pkg/rdf/ntriples.go:56-125 | the scan slices past the end if and only if its last token starts with a quote, closes on the last byte but one and ends in something other than an at sign |
| `NTriplesCrashes.LineCrashesExactly` | pkg/rdf/ntriples.go:15-125 | reading a line fails if and only if the line is a statement whose last token is cut short in this way |
| `NTriplesCrashes.NoQuoteNoCrash` | pkg/rdf/ntriples.go:15-125 | a statement whose last character but one is no quote never makes the reader fail |
| `NTriplesCrashes.StrayCharacterCrashes` | pkg/rdf/ntriples.go:56-125 | a family of such lines: an object literal followed at once by one stray character |
| `NTriplesCrashes.ImportCrashesExactly` | pkg/rdf/store.go:323-341 | an import fails in this way if and only if some line does and no line before it is refused |
| `NTriplesCrashes.SafeDocument` | pkg/rdf/store.go:323-341 | a document none of whose statements has a quote as its last character but one is safe to import |
| `Text.SplitJoin` | pkg/rdf/store.go:323-355 | splitting joined lines gives the lines back if none contains the separator |
| `Text.SpaceExactly` | pkg/rdf/ntriples.go:16-23 | what is trimmed from both ends of a line: the code points that Unicode calls white space, one by one |
| `KMeans.ComputeSquaredDistance` | pkg/quantization/product.go:117-124 | the loop computes the sum of squared differences |
| `KMeans.FindNearestCentroid` | pkg/quantization/product.go:104-115 | the first of the nearest centroids, or 0 if none is nearer than the largest float |
| `KMeans.UpdateLowersCost` | pkg/quantization/product.go:160-178 | moving any number of centroids to the means of their clusters never increases the sum of squared distances of the vectors to the centroids they are assigned to |
| `KMeans.IterationLowersObjective` | pkg/quantization/product.go:145-179 | reassigning and moving to means never increases the sum of squared distances to the nearest centroid |
| `KMeans.Cluster` | pkg/quantization/product.go:126-182 | the codebook that at most 20 rounds make of the random start: all vectors are assigned to their nearest centroids and, unless no assignment has changed, all centroids with vectors move to the means of these |
| `KMeans.NoMoveExactly` | pkg/quantization/product.go:141-157 | no centroid ever moves if and only if every vector is as near to centroid 0 of the start as to any other, or out of range of all |
| `KMeans.EqualCentroidsStay` | pkg/quantization/product.go:126-182 | a start whose centroids are all equal, such as a single one, is returned as it is |
| `KMeansDescent.NeverWorseExactly` | pkg/quantization/product.go:104-182 | clustering vectors of a box, for every number of clusters and every random start, never ends with a larger objective than the start has, if and only if the square of the diagonal of the box is at most the largest float |
| `KMeansDescent.FarIsWorse` | pkg/quantization/product.go:104-182 | a family of starts that clustering makes worse: a vector out of range of both centroids pulls the first one away from the others |
| `ProductQuantizer.Quantizer.Train` | pkg/quantization/product.go:26-56 | for every sub-vector the codebook that k-means makes of its random start; unsuitable input changes nothing |
| `ProductQuantizer.TrainingIsNoWorse` | pkg/quantization/product.go:26-56 | no codebook is worse than its random start, for vectors in a box in which no distance of sub-vectors exceeds the largest float |
| `ProductQuantizer.Quantizer.Encode` | pkg/quantization/product.go:59-70 | each byte is the index of the first nearest centroid modulo 256, or 0 where no distance is below the largest float; nothing before training |
| `ProductQuantizer.Quantizer.Decode` | pkg/quantization/product.go:73-84 | the named centroids one after the other; nothing before training |
| `ProductQuantizer.Quantizer.Distance` | pkg/quantization/product.go:87-102 | the sum of the squared distances to the named centroids |
| `ProductQuantizer.DistanceIsToDecoded` | pkg/quantization/product.go:73-127 | the distance between a vector and a code is the squared distance between the vector and the decoded code |
| `ProductQuantizer.NearestIsOptimal` | pkg/quantization/product.go:59-102 | naming a nearest centroid of every sub-vector gives the least distance over all choices of centroids |
| `ProductQuantizer.SmallCodebooksDoNotWrap` | pkg/quantization/product.go:59-70 | with at most 256 centroids the code is made of nearest centroids |
| `ProductQuantizer.EncodesWellExactly` | pkg/quantization/product.go:59-70 | every sub-vector gets the byte of a nearest centroid if and only if each centroid beyond the first 256 repeats one of these |
| `ProductQuantizer.EncodingIsOptimalExactly` | pkg/quantization/product.go:59-102 | every vector gets a code with the least distance over all choices of centroids if and only if this holds for every codebook |
| `ProductQuantizer.LongCodebookWraps` | pkg/quantization/product.go:59-70 | a concrete codebook of 257 centroids and a vector that gets the worst code |
| `ProductQuantizer.DecodeEncodeDecode` | pkg/quantization/product.go:59-84 | a decoded vector survives being encoded and decoded again |
| `EditDistance.Levenshtein` | pkg/store/fuzzy.go:4-33 | the two-row loop computes the recursive edit distance |
| `EditDistance.ZeroIffEqual` | pkg/store/fuzzy.go:4-33 | the distance is 0 if and only if the texts are equal |
| `EditDistance.Symmetric` | pkg/store/fuzzy.go:4-33 | the distance is symmetric |
| `EditDistance.TriangleInequality` | pkg/store/fuzzy.go:4-33 | the distance satisfies the triangle inequality |
| `EditDistance.ShortestScript` | pkg/store/fuzzy.go:4-33 | the distance is the length of the shortest script of insertions, deletions and substitutions at any positions |
| `EditDistance.FuzzyMatch` | pkg/store/fuzzy.go:46-59 | exactly the different candidates within the distance, in the order of their first occurrence |
| `Chunking.ChunkBySize` | pkg/store/chunking.go:13-67 | ends for every size and overlap; every chunk is a slice that starts and ends where the break rule says |
| `Chunking.ChunkExactly` | pkg/store/chunking.go:13-67 | where every chunk starts and ends, spelled out: the overlap before the end of the one before, or this end; behind the last sentence mark of its second half, the last rune apart, or full, or at the end of the text |
| `Chunking.SizeExactly` | pkg/store/chunking.go:14-16 | a size that is not positive stands for 500 runes |
| `Chunking.OverlapExactly` | pkg/store/chunking.go:17-19 | an overlap that is negative or reaches the size stands for a quarter of the size |
| `Chunking.ChunksCover` | pkg/store/chunking.go:13-67 | chunks are no longer than the size, their starts increase, there is no gap, and the last one ends the text |
| `Chunking.StitchRestoresText` | pkg/store/chunking.go:13-67 | keeping each prefix up to the next start and appending gives the text back |
| `Chunking.OnlyLastTwoReachEnd` | pkg/store/chunking.go:13-67 | the first chunk to reach the end of the text is followed by at most one more, made of overlap alone; it is followed if and only if it starts before the overlap |
| `Chunking.LastChunkIsOverlapExactly` | pkg/store/chunking.go:13-67 | with an overlap of at most half a chunk, the last chunk adds no text if and only if the overlap is positive and shorter than the text |
| `Chunking.OverlapOnlyChunk` | pkg/store/chunking.go:13-67 | a concrete text of one full chunk whose second chunk lies inside the first |
| `Chunking.InnerChunksAddTextExactly` | pkg/store/chunking.go:13-67 | in every text every chunk but the last goes beyond the one before it, if and only if the overlap is at most half the size plus one |
| `Chunking.ChunkCountBound` | pkg/store/chunking.go:13-67 | never more chunks than characters; with an overlap of at most a quarter of the size, (n - 2) * size <= 4 * length |
| `Ranking.SortAndCut` | pkg/index/flat.go:52-57 | what a cut leaves of the hits when they are sorted, a hit listed twice counting twice; for different hits a ranking: sorted, distinct, the right number, none left out with a higher score |
| `Ranking.SameScores` | pkg/index/flat.go:52-57 | all rankings of the same hits show the same scores |
| `Ranking.PositivesOfTopK` | pkg/store/memory.go:573-584 | dropping non-positive scores after the cut leaves a ranking of the positive hits |
| `FlatIndex.Flat.Search` | pkg/index/flat.go:37-64 | the brute-force ranking of all vectors |
| `FlatIndex.Flat.Insert` | pkg/index/flat.go:25-27 | the whole new state |
| `FlatIndex.Flat.RemoveVector` | pkg/index/flat.go:104-106 | the whole new state |
| `IdGroups.InsertPartitionsExactly` | pkg/index/ivf.go:37-41 | appending an ID to the group of its vector keeps every ID in one place, once, if and only if the ID is new |
| `IdGroups.RemoveKeepsPartition` | pkg/index/ivf.go:220-230 | cutting an ID out of every group keeps the partition |
| `IdGroups.CutOut` | pkg/index/ivf.go:223-228 | the list without the first occurrence of the ID |
| `IvfIndex.Ivf.AssignCluster` | pkg/index/ivf.go:144-158 | the first of the nearest centroids, 0 before training |
| `IvfIndex.NearestIsFirst` | pkg/index/ivf.go:144-158 | of equally near centroids the first is taken, and 0 if none is below the limit |
| `IvfIndex.Ivf.Insert` | pkg/index/ivf.go:37-41 | the whole new state; the clusters stay a partition of the live IDs if and only if the ID is new |
| `IvfIndex.Ivf.RemoveVector` | pkg/index/ivf.go:220-230 | the whole new state; a partition stays one |
| `IvfIndex.Draw` | pkg/index/ivf.go:117-131 | the draw always hits an index, the one whose share of the total weight holds the roll |
| `IvfIndex.EqualShares` | pkg/index/ivf.go:88-142 | of n equal weights, the one at i is drawn by the rolls above i and up to i + 1 n-ths |
| `IvfIndex.Ivf.Train` | pkg/index/ivf.go:88-142 | fails exactly with fewer vectors than clusters; otherwise the first centroid is the one drawn, each next one is the vector in whose share of the distances to the centroids before it the roll falls, and the clusters are a partition, whatever they were before |
| `IvfIndex.Ivf.NearestCentroids` | pkg/index/ivf.go:160-185 | the nprobe nearest clusters, nearest first |
| `IvfIndex.Ivf.Search` | pkg/index/ivf.go:51-85 | in any index the ranking of what the probed clusters list; where every ID is in its one place, the ranking of the vectors of these clusters, and with all clusters probed the brute-force ranking; nothing before training |
| `LshIndex.Lsh.HashOf` | pkg/index/lsh.go:124-139 | the loop computes the 32-bit hash bit by bit |
| `LshIndex.SameBucketExactly` | pkg/index/lsh.go:124-139 | two vectors get the same hash if and only if none of the last 32 hyperplanes separates them |
| `LshIndex.AxisSide` | pkg/index/lsh.go:124-139 | a vector that points along an axis is on the positive side of exactly the planes with a positive component there |
| `LshIndex.DotOnAxis` | pkg/index/lsh.go:127-131 | the product of a vector on an axis with a plane is that of their components there |
| `LshIndex.DotAdds` | pkg/index/lsh.go:127-131 | the product is additive in the vector; with the law before and DotScales this leaves only one product |
| `LshIndex.ScalingKeepsBucket` | pkg/index/lsh.go:124-139 | a vector and its positive multiples share every bucket |
| `LshIndex.OppositesPart` | pkg/index/lsh.go:124-139 | the normal of a plane that the hash sees and its opposite share a bucket only if the normal is zero |
| `LshIndex.Lsh.Insert` | pkg/index/lsh.go:53-64 | the new buckets of every table; each live ID stays once in its bucket per table if and only if the ID is new |
| `LshIndex.Lsh.RemoveVector` | pkg/index/lsh.go:162-175 | the new buckets of every table; filed indexes stay filed |
| `LshIndex.Lsh.CollectCandidates` | pkg/index/lsh.go:79-89 | in any index exactly the IDs that the buckets of the query list; in a filed one exactly the stored IDs that share a bucket with it |
| `LshIndex.Lsh.Search` | pkg/index/lsh.go:74-122 | in any index the ranking of the gathered IDs, or of all vectors if there are none; in a filed one a query equal to a stored vector scores at least its similarity to itself |
| `Hnsw.Index.Climb` | pkg/index/hnsw.go:138-162 | the greedy loop ends for every graph and never lowers the score; it stays put when all entries are visited |
| `Hnsw.Index.SearchLayer` | pkg/index/hnsw.go:116-214 | a layer search returns the entry point with its score and nothing else |
| `HnswLayers.SelectNeighbors` | pkg/index/hnsw.go:243-263 | the m best links, or all of them |
| `HnswLayers.AddLinks` | pkg/index/hnsw.go:92-102 | links in both directions between the new ID and the kept ones |
| `HnswLayers.Prune` | pkg/index/hnsw.go:104-110 | every list cut to its m best links |
| `HnswLayers.LinkingKeepsSound` | pkg/index/hnsw.go:92-110 | linking and pruning keep all IDs live and all lists at most m long |
| `Hnsw.Index.Insert` | pkg/index/hnsw.go:59-113 | the new state; the index stays valid if and only if the ID is not empty; every layer of the node is linked to the entry point only |
| `Hnsw.Index.RemoveVector` | pkg/index/hnsw.go:476-505 | the new state; a valid index stays valid, and a removed entry point is replaced by a live ID if there is one |
| `HnswLayers.RemoveKeepsListed` | pkg/index/hnsw.go:479-486 | the other IDs stay listed in every layer up to their level |
| `HnswLayers.RemovalKeepsSound` | pkg/index/hnsw.go:487-495 | removing an ID leaves only live IDs and no longer lists |
| `Hnsw.Index.Search` | pkg/index/hnsw.go:266-396 | one live vector with its true score, the end of the greedy descent through the upper layers, scoring at least as much as the entry point |
| `VectorCodec.VectorToBytes` | pkg/store/crud.go:169-176 | the buffer holds the encoding |
| `VectorCodec.BytesToVector` | pkg/store/crud.go:179-189 | the decoding: none for short data, a crash if the data ends early, else the components |
| `VectorCodec.LayoutExactly` | pkg/store/crud.go:169-176 | the first four bytes hold the length and each four that follow the next component, lowest byte first |
| `VectorCodec.DecodeOfEncode` | pkg/store/crud.go:169-189 | reading a stored vector gives it up to its length modulo 2^32 |
| `VectorCodec.RoundTripExactly` | pkg/store/crud.go:169-189 | a vector survives if and only if its length is below 2^32 |
| `VectorCodec.EncodeOfDecode` | pkg/store/crud.go:169-189 | storing what was read gives the bytes back, without what follows the last component |
| `MemoryFts.CountTerms` | pkg/store/memory.go:644-650 | the counts of the terms: words times the number of times their expansion names the term, whatever the order of the words |
| `MemoryFts.CountOfOneWord` | pkg/store/memory.go:644-650 | for one word a term counts as often as the text has the word, times how often the word is expanded to the term |
| `MemoryFts.CountsAddUp` | pkg/store/memory.go:644-650 | the counts for different words add up |
| `MemoryFts.CountsUnique` | pkg/store/memory.go:644-650 | these counts are determined by the text |
| `MemoryFts.DeleteEntries` | pkg/store/memory.go:663-683 | no entry of the memory is left, all others are unchanged |
| `MemoryFts.SetEntries` | pkg/store/memory.go:651-659 | exactly the capped counts are entered, all other entries are unchanged |
| `MemoryFts.CapExactly` | pkg/store/memory.go:651-659 | counts above 255 are stored as 255, others as they are |
| `MemoryFts.Reindex` | pkg/store/memory.go:643-683 | after deleting and indexing, exactly the capped counts of the text |
| `MemoryFts.EntriesCountSomething` | pkg/store/memory.go:643-661 | no entry is zero |
| `MemoryVectors.PutAgreesExactly` | pkg/store/memory.go:549-563 | storing and upserting a vector keeps records and index equal if and only if it is not empty and its length fits 32 bits |
| `MemoryVectors.DropKeepsAgree` | pkg/store/memory.go:274-290 | deleting from both keeps them equal |
| `MemoryVectors.StoredIsIndexed` | pkg/store/memory.go:612-641 | when they agree, reading a bucket from the store gives the vectors of its index |
| `MemoryStore.Store.UpsertIndex` | pkg/store/memory.go:549-563 | the new contents of all bucket indexes; the empty vector is ignored; buckets never share an index |
| `MemoryStore.Store.SaveMemory` | pkg/store/memory.go:64-164 | the new state or an error for a blank text; the word index stays exact; vectors stay in agreement if and only if the length fits 32 bits |
| `MemoryStore.Store.UpdateMemory` | pkg/store/memory.go:178-259 | the new state or not found; the word index stays exact; a given vector keeps agreement if and only if it is not empty and fits 32 bits |
| `MemoryStore.Store.DeleteMemory` | pkg/store/memory.go:262-293 | the new state or not found; everything stays in agreement |
| `MemoryStore.Store.DeleteMemoryDirect` | pkg/store/store.go:249-288 | the same effect as DeleteMemory, with another error |
| `MemoryFiling.DeletedEverywhereExactly` | pkg/store/memory.go:262-293 | after a deletion nothing is kept for the ID under any bucket if and only if all of it was where the ID is looked up |
| `MemoryFiling.SavedInOneBucketExactly` | pkg/store/memory.go:64-164 | a save keeps everything of an ID under one bucket if and only if nothing was kept for it under another |
| `MemoryFiling.LeftBehindStays` | pkg/store/memory.go:64-293 | over every run, what is left behind under another bucket stays, whatever is deleted, until it is saved there again |
| `MemoryFiling.SecondBucketOrphansFirst` | pkg/store/memory.go:64-293 | two saves of one ID under different buckets and its deletion leave what the first save wrote |
| `MemoryStore.Store.ReadMemoryVectors` | pkg/store/memory.go:612-641 | every stored vector of the bucket, decoded, or a crash if and only if some record of the bucket is truncated |
| `MemoryStore.Store.ScanVectors` | pkg/store/memory.go:592-609 | the ranking of the stored vectors with a positive score, or a crash on a truncated record |
| `MemoryStore.Store.SearchMemoryVectors` | pkg/store/memory.go:565-610 | the ranking of the positive scores in the index of the bucket, or of the stored vectors if that holds none; a crash if and only if a scan meets a truncated record; the same ranking either way where store and index agree; 5 results if the number asked for is not positive |

## Left out

- Badger transactions and their errors, JSON and gob encoding, snapshots, backup, telemetry, transport, callbacks to language models: input and output or foreign code.
- Batch inserts of the indexes: loops over the modelled inserts.
- Traversal.BFS: how often an edge is returned, and which edges are in a store with stale entries, where an edge counts by the visited ones of its end points.
- DepthFirst.DFS: which of the edges to the reported nodes are returned; the code pairs edges with nodes by position, and a query may return more edges than nodes.
- PropertyGraph.DeletedNodeIsGone: does not speak of the type entries of nodes and edges, which DeleteNode does not clean up.
- Text of SPARQL queries and variables other than ?s, ?p and ?o: the evaluator starts from parsed patterns and tracks only these three positions.
- Sparql.Select: the exact solutions are those of crisp stores; JoinIsSoundExactly and NothingMissedExactly show that soundness and completeness take this.
- Namespaces and prefixes, SHACL checks, report rendering: they would only add easy members.
- Rdfs.Inferencer.Infer: growth and coverage are proved for tame stores, because IDs are made of values while the search for an existing triple compares kinds and values, so that facts of equal values overwrite each other.
- Rounding of floats, cosine and square roots: similarity and distance are parameters.
- The creation time and the UUID of a chunk.
- IvfIndex.Ivf.Train: takes a positive number of clusters; the code panics on none.
- LshIndex.Lsh.Search: the index is built before the first insert; building again with vectors inside is not modelled.
- Hnsw.Index.Insert: says nothing about the scores stored with links, which can be out of date after an ID is inserted again.
- Recall of HNSW: with the loops as they are there is none to prove.
- Names of memory buckets, metadata, expiry, importance and recency of memories, and the ranking of SearchMemory: the model has which records exist, their texts, words and vectors.
- MemoryStore.Store.SearchMemoryVectors: the index of a bucket is a flat one, which the code falls back to.
- Lexical scores: logarithms and tuning constants.
