# A model of the tsurugi-graph engine

This project models tsurugi-graph, a property-graph engine that runs Cypher statements against records
in an ordered key-value store, and proves what its parts promise each other. The engine has many pairs of a
fast and a slow form of the same thing: an index and a scan, an interval of encoded keys and a loop of
comparisons, a fused operator and two plain ones, deferred and immediate writes, a cache and a parser. Most
theorems here say when, for all inputs, the two forms agree, and where they do not, exactly when.

`dafny verify dfyconfig.toml` verifies everything.

## How it is laid out

The key-value store is a map from byte strings to byte strings, visited in unsigned lexicographic order;
one character of a Dafny string stands for one byte. CREATE fails on an existing key, all other calls
succeed. A database (`Store.Db`) is six such tables and the id counters.

* `Bytes`, `SortableDouble`: keys, their order, and the sortable form of binary64 numbers.
* `Store` says what every storage operation does to a database; `Storage` is the class with the source's
  loops, each method tied to its function. Hash maps are visited in an arbitrary order, which a method
  reports as a ghost result.
* `PropertyIndex`, `Runs`, `RunResults`, `IdRuns`, `LabelScans`, `Ranges`: what holds over every run of
  storage operations, and what scans and lookups therefore return. A run also remembers which nodes and
  edges were created and deleted, and the text a node had then (`Runs.World`), independently of the tables.
* `Json`, `JsonLaws`: the text helpers and the printer they have to agree with.
* `Ast`, `Matching`, `Where`, `CreateClause`, `DeleteClause`, `SetClause`, `ReturnClause`: what each clause
  means; `Batching`, `ReturnBatches`, `MutatingClauses`, `Executor`: the loops of the executor.
* `WhereResults`, `CreateResults`, `SetResults`, `ReturnResults` with the reader `Answers`: what the clauses
  do, said of the pattern, the assignments and the values nodes and edges hold.
* `Execution`: the relation between the state before and after a statement; `Statements`: what whole
  statements answer and leave.
* `Witnesses`: databases that runs reach and in which promised laws fail.
* `Lru`, `QueryCache`: the recency list and the cache built from a map, a list and a map of iterators.
* `AstCopy`, `Rebinding`: literals as heap objects, deep copies and in-place binding.
* `Lexer`, `Parsing`, `Parser`: tokens, grammar and the recursive-descent parser. `Rendering`,
  `ParseRoundTrip`, `LexRoundTrip`, `ParsedShape`: the canonical text of a statement and back.
* `Service`: the request loop.

`std::stod` is a parameter: a partial function from text to 64-bit patterns about which nothing is assumed.
What the transaction layer answers, the number of hardware threads and the batch sizes are parameters too.

## Where promised laws fail

The lemmas named here say exactly when each law holds; those of `Witnesses` show inputs at which it fails.

* JSON lookup and update take a string value that equals the key for the key itself
  (`JsonLaws.HelpersCommuteWithPrinterIff`, `ShadowedKeyGoesWrong`). `GetPrint` and `UpdatePrint` say what
  happens for every text.
* `UNWIND [] AS x CREATE ...` runs the CREATE once (`Execution.UnwindIsLoopIff`, `Witnesses.EmptyUnwindCreates`).
* Equality through the index compares canonical forms, so 30 finds 30.0; the full scan compares texts
  (`Where.EqualityPathsAgreeIff`, `Witnesses.EqualNumbersDifferentTexts`).
* Deleted nodes stay in the label and property indexes, so MATCH binds them, and WHERE through the index
  keeps those that had the value; the full scan drops them (`Where.EqualityPathsAgreeIff`,
  `RangePathsAgreeIff`, `Witnesses.DeletedNodeIsFound`).
* The fused MATCH and WHERE never looks at inline properties (`Where.FusedWithInlinePropertiesIff`,
  `Witnesses.FusedIgnoresInline`).
* A label that another label extends is scanned with that label's nodes (`LabelScans.FindExactIff`,
  `Witnesses.ExtendedLabelIsFound`); the streaming scan can also stop early (`LabelScans.LabelScanExactIff`).
* -0.0 and 0.0 have different keys, and NaN patterns lie at the ends of the numeric keys
  (`Ranges.ComparisonsAgreeIff`, `RangeScanRefinesLoopIff`, `Witnesses.NaNIsFound`). A comparison with a string
  looks at numbers in the full scan only (`Where.StringRangePathsAgreeIff`).
* SET through a variable bound without a label writes the text and leaves the property index alone
  (`Runs.PlainUpdateKeepsInvIff`, `Witnesses.PlainUpdateBreaksIndex`).
* The note on the property index (`graph-service/docs/adr/0002-property-index.md:78-79`) has `update_node`
  re-index the node and `delete_node` drop its entries. The code does neither: a delete writes empty values
  and keeps all keys, and DELETE passes an empty label. The model follows the code.

## Model

| member | source | states |
|---|---|---|
| `SortableDouble.EncodeSortableDouble` | graph-service/src/tateyama/framework/graph/storage.cpp:44-54 | fills the first eight bytes of a buffer with the sortable form of a 64-bit pattern and leaves the rest of the buffer alone |
| `SortableDouble.DecodeEncode` | graph-service/src/tateyama/framework/graph/storage.cpp:44-68 | decoding inverts encoding for all 2^64 patterns |
| `SortableDouble.EncodeIsOrderIsomorphism` | graph-service/src/tateyama/framework/graph/storage.cpp:44-54 | for patterns that are no NaN and not both zero, byte order of the encodings is the order of the real values (sections 3.4 and 5.10 of IEEE 754-2019), and encodings are equal exactly when the values are |
| `SortableDouble.ZerosSeparate` | graph-service/src/tateyama/framework/graph/storage.cpp:44-54 | the two zeros are equal numbers with different encodings, so the excluded case is a real exception |
| `Bytes.ToKeyOrder` | graph-service/src/tateyama/framework/graph/storage.cpp:13-22 | big-endian keys order ids as numbers |
| `Bytes.BetweenSharesPrefix` | graph-service/src/tateyama/framework/graph/storage.cpp:703-745 | every byte string between two one-byte extensions of a prefix starts with that prefix |
| `Storage.Storage.Init` | graph-service/src/tateyama/framework/graph/storage.cpp:120-137 | a restart takes the counters from the durable sequence |
| `Storage.Storage.AllocateId` | graph-service/src/tateyama/framework/graph/storage.cpp:140-155 | issues the next id and puts the sequence once per batch of 64; the whole new state is stated |
| `IdRuns.IdsNeverRepeat` | graph-service/src/tateyama/framework/graph/storage.cpp:120-155 | over any run of allocations and restarts below the 63-bit bound, ids are issued in strictly increasing order, and the relation between the persisted value, the next id and the batch remainder holds throughout |
| `IdRuns.FreshIds` | graph-service/src/tateyama/framework/graph/storage.cpp:120-138 | the counters of a new database satisfy that relation |
| `IdRuns.RestartSkipsLittle` | graph-service/src/tateyama/framework/graph/storage.cpp:120-155 | a restart resumes above every issued id and skips at most 63 ids |
| `IdRuns.PutsAreBatched` | graph-service/src/tateyama/framework/graph/storage.cpp:140-155 | n allocations from a fresh or recovered state write the sequence ceil(n / 64) times |
| `Storage.Storage.CreateNode` | graph-service/src/tateyama/framework/graph/storage.cpp:157-183 | fails on an existing key; otherwise record, label key and property index are written as `Store.CreateNode` says |
| `Storage.Storage.GetNode` | graph-service/src/tateyama/framework/graph/storage.cpp:185-192 | found exactly when there is a record, with its text |
| `Storage.Storage.UpdateNode` | graph-service/src/tateyama/framework/graph/storage.cpp:194-198 | overwrites the text and nothing else: the property index is not maintained |
| `Storage.Storage.UpdateNodeWithLabel` | graph-service/src/tateyama/framework/graph/storage.cpp:205-274 | delta update of the index from the first-wins maps of the old and the new text, for whatever order the hash maps are visited in |
| `Storage.Storage.DeleteNode` | graph-service/src/tateyama/framework/graph/storage.cpp:276-295 | writes an empty text and, under a label, an empty label entry; no key goes away |
| `Storage.Storage.GetNodesBatch` | graph-service/src/tateyama/framework/graph/storage.cpp:828-841 | the ids that have a record, in order, with their texts |
| `Storage.Storage.AddToIndex` | graph-service/src/tateyama/framework/graph/storage.cpp:632-668 | CREATE, or read, append and write back: either way the id is appended to the packed list |
| `Storage.Storage.IndexNodeProperties` | graph-service/src/tateyama/framework/graph/storage.cpp:632-668 | one index entry per parsed property |
| `Storage.Storage.RemovePackedId` | graph-service/src/tateyama/framework/graph/storage.cpp:611-623 | drops every eight-byte group that is the id |
| `Storage.Storage.UnpackIds` | graph-service/src/tateyama/framework/graph/storage.cpp:625-630 | reads all complete eight-byte groups |
| `Storage.Storage.FindNodesByProperty` | graph-service/src/tateyama/framework/graph/storage.cpp:670-681 | the list stored under label, key and canonical value |
| `PropertyIndex.BuildKeyDecodes` | graph-service/src/tateyama/framework/graph/storage.cpp:582-608 | for names without NUL an index key determines label, property key and canonical value |
| `PropertyIndex.UnpackPack` | graph-service/src/tateyama/framework/graph/storage.cpp:611-630 | unpacking inverts packing |
| `PropertyIndex.RemovePackedPack` | graph-service/src/tateyama/framework/graph/storage.cpp:611-623 | removing from a packed list is packing the list without the id |
| `PropertyIndex.IndexNodeEffect` | graph-service/src/tateyama/framework/graph/storage.cpp:632-668 | after indexing, the id is listed under exactly the keys its text has; lists stay packed and without repetition, other ids are not affected |
| `PropertyIndex.DeltaEffect` | graph-service/src/tateyama/framework/graph/storage.cpp:205-274 | the same after a delta update, given that the old text was indexed |
| `Runs.StepKeepsInv` | graph-service/src/tateyama/framework/graph/storage.cpp:120-433 | every storage operation keeps the invariant over records, the property index, the twin adjacency indexes, the label index and the id counters; an update without a label is among them where the old and the new text have the same index keys |
| `Runs.RunKeepsInv` | graph-service/src/tateyama/framework/graph/storage.cpp:120-433 | so does every run of creates, updates, deletes, edge operations and restarts |
| `Runs.PlainUpdateKeepsInvIff` | graph-service/src/tateyama/framework/graph/storage.cpp:194-198 | `update_node`, which SET calls for a variable bound without a label, keeps the invariant if and only if the old and the new text are indexed under the same keys |
| `Witnesses.PlainUpdateBreaksIndex` | graph-service/src/tateyama/framework/graph/core/executor.cpp:670-680 | an input: setting k from 1 to 2 this way leaves the node listed under 1 |
| `Runs.UpdateReindexes` | graph-service/src/tateyama/framework/graph/storage.cpp:205-274 | an update of a live node under its own label leaves it listed exactly under the keys of its new text |
| `RunResults.PropertyIndexAgrees` | graph-service/src/tateyama/framework/graph/storage.cpp:157-295 | after any run a lookup list has no repetition; of the nodes not deleted it has exactly those of the label whose text holds a value with that canonical form, and of the deleted ones exactly those that held it when they were deleted |
| `RunResults.PropertyIndexExact` | graph-service/src/tateyama/framework/graph/storage.cpp:157-274 | without deletes the list is exact |
| `RunResults.DeltaOrderIsIrrelevant` | graph-service/src/tateyama/framework/graph/storage.cpp:205-274 | the visiting order of the two delta loops changes no list as a set |
| `Storage.Storage.ScanInterval` | graph-service/src/tateyama/framework/graph/storage.cpp:697-752 | the interval loop with its prefix check collects the lists of exactly the keys in the interval |
| `Storage.Storage.ScanEntries` | graph-service/src/tateyama/framework/graph/storage.cpp:754-804 | the comparison loop over all entries of the property |
| `Storage.Storage.FindNodesByPropertyRange` | graph-service/src/tateyama/framework/graph/storage.cpp:683-804 | which of the two loops runs, and its result |
| `Ranges.IntervalSharesPrefix` | graph-service/src/tateyama/framework/graph/storage.cpp:703-745 | no key of the interval belongs to another label, property key or to strings |
| `Ranges.ComparisonsAgreeIff` | graph-service/src/tateyama/framework/graph/storage.cpp:697-752 | comparing encodings agrees with comparing numbers exactly outside the exceptional cases, which sign and operator decide: a NaN on the side asked for, or the other zero |
| `Ranges.IntervalMembers` | graph-service/src/tateyama/framework/graph/storage.cpp:697-752 | in every reachable state the interval scan finds exactly the nodes of the label whose number, or number when deleted, has an encoding that compares |
| `Ranges.RangeScanRefinesLoopIff` | graph-service/src/tateyama/framework/graph/storage.cpp:683-804 | in every reachable state the interval scan returns exactly the list the comparison loop collects for numbers if and only if no node of the label has, or had when deleted, an exceptional number; the loop additionally returns matching strings, after them |
| `Ranges.StringThreshold` | graph-service/src/tateyama/framework/graph/storage.cpp:754-804 | operator by operator: a range query with a threshold that is no number finds a node with a string exactly when the string is bytewise above, below, equal or unequal |
| `Ranges.NumberThreshold` | graph-service/src/tateyama/framework/graph/storage.cpp:683-804 | operator by operator, <> included: with a number it finds a node with a number exactly when the real values compare, outside the exceptional cases |
| `Storage.Storage.CreateEdge` | graph-service/src/tateyama/framework/graph/storage.cpp:328-368 | record and both index entries |
| `Storage.Storage.FindEdge` | graph-service/src/tateyama/framework/graph/storage.cpp:370-395 | decodes the record; fails on a short or deleted one |
| `Storage.Storage.DeleteEdge` | graph-service/src/tateyama/framework/graph/storage.cpp:297-326 | empties record and index values, keeps all keys, fails on what is no edge |
| `Storage.Storage.ScanIds` | graph-service/src/tateyama/framework/graph/storage.cpp:397-456 | the iterator loop of the adjacency and label scans |
| `Storage.Storage.GetOutgoingEdges` | graph-service/src/tateyama/framework/graph/storage.cpp:397-414 | ids behind the keys that start with the node |
| `Storage.Storage.GetIncomingEdges` | graph-service/src/tateyama/framework/graph/storage.cpp:416-433 | the same in the mirrored index |
| `Runs.DecodeEncodeEdge` | graph-service/src/tateyama/framework/graph/storage.cpp:328-395 | reading an edge record returns what was written when 20 + label size is below 2^32 |
| `Runs.EdgeIs` | graph-service/src/tateyama/framework/graph/storage.cpp:297-395 | in every reachable state an id reads as the edge that was created under it, or fails if it was deleted or never was an edge |
| `RunResults.AdjacencyAgrees` | graph-service/src/tateyama/framework/graph/storage.cpp:297-433 | after any run both lists of a node are strictly ascending and contain exactly the edges created from and to it; those that fail to read are exactly the deleted ones |
| `Storage.Storage.FindNodesByLabel` | graph-service/src/tateyama/framework/graph/storage.cpp:435-456 | ids behind the label prefix; fails on the empty label |
| `Storage.LabelIterator.Next` | graph-service/src/tateyama/framework/graph/storage.cpp:496-510 | one step of the streaming scan |
| `LabelScans.FindExactIff` | graph-service/src/tateyama/framework/graph/storage.cpp:435-456 | `find_nodes_by_label` returns exactly the nodes created under the label, in ascending order, if and only if no other label in use extends it |
| `LabelScans.LabelScanExactIff` | graph-service/src/tateyama/framework/graph/storage.cpp:435-510 | the streaming iterator does so too if and only if, besides, no node with a shorter label has an id whose bytes continue it to the one scanned for, before a key of that label |
| `LabelScans.SmallIdsDoNotIntrude` | graph-service/src/tateyama/framework/graph/storage.cpp:496-510 | for labels without NUL only ids from 2^56 on can do that |
| `LabelScans.ExtendedScanTooLong` | graph-service/src/tateyama/framework/graph/storage.cpp:164-176 | with an extending label in use the scan returns too many ids, because keys have no separator |
| `Witnesses.ExtendedLabelIsFound` | graph-service/src/tateyama/framework/graph/storage.cpp:435-456 | an input: with one node labelled A and one labelled AB, looking for A finds two |
| `Json.ParseJsonProperties` | graph-service/src/tateyama/framework/graph/storage.cpp:528-574 | the position loop reads what `Json.Parse` says |
| `Json.GetJsonValue` | graph-service/src/tateyama/framework/graph/core/executor.cpp:755-797 | the position loop finds what `Json.GetValue` says |
| `Json.UpdateJsonProperty` | graph-service/src/tateyama/framework/graph/core/executor.cpp:799-842 | the update, with None where the substring position is out of range |
| `JsonLaws.ParsePrint` | graph-service/src/tateyama/framework/graph/core/executor.cpp:86-126 | reading back a printed text gives its entries with the value types erased |
| `JsonLaws.GetPrint` | graph-service/src/tateyama/framework/graph/core/executor.cpp:755-797 | lookup in any printed text, including the case where a string value is taken for the key |
| `JsonLaws.UpdatePrint` | graph-service/src/tateyama/framework/graph/core/executor.cpp:799-842 | update of any printed text, character for character |
| `JsonLaws.HelpersCommuteWithPrinterIff` | graph-service/src/tateyama/framework/graph/core/executor.cpp:755-842 | update prints the entries with the key replaced or appended, for every new value, if and only if the key is found: no string value equal to it stands before it, or the one that does stands directly before it; lookup then reads the stored value |
| `JsonLaws.ShadowedKeyGoesWrong` | graph-service/src/tateyama/framework/graph/core/executor.cpp:755-842 | a concrete text for which both laws fail where the key is not found |
| `JsonLaws.UpdateKeepsShape` | graph-service/src/tateyama/framework/graph/core/executor.cpp:799-842 | updating keeps printed texts printed and keys distinct |
| `Executor.Executor.EvaluateProperties` | graph-service/src/tateyama/framework/graph/core/executor.cpp:86-126 | the property text of a pattern |
| `CreateClause.EvalIsPrint` | graph-service/src/tateyama/framework/graph/core/executor.cpp:86-126 | texts of literal properties are printed texts, so the laws above apply to them |
| `Executor.Executor.ExecuteCreate` | graph-service/src/tateyama/framework/graph/core/executor.cpp:128-172 | all paths in order, stopping at the first failure; variables already bound are reused |
| `CreateResults.CreateIsMatched` | graph-service/src/tateyama/framework/graph/core/executor.cpp:128-172 | CREATE of a path of named elements with literal properties succeeds; a bound name is reused; every other node is new, with the label and text of the pattern; every relationship is one new edge of its type and text between the two nodes in the direction of the pattern, and walking it as MATCH does leads from the left node to the right one; nothing else is made and nothing older changes |
| `CreateResults.CreatedIsWalk` | graph-service/src/tateyama/framework/graph/core/executor.cpp:128-172 | the new edges of a path of new names are a walk of the same pattern from its first node to its last |
| `CreateResults.CreateAllPaths` | graph-service/src/tateyama/framework/graph/core/executor.cpp:128-172 | the same for several paths that share node names |
| `CreateClause.UnwindIsSubstitution` | graph-service/src/tateyama/framework/graph/core/executor.cpp:683-753 | the UNWIND loop leaves the same database and ids as running the clauses per element in a fresh executor with alias.key replaced by the element's literal |
| `CreateClause.UnwoundValue` | graph-service/src/tateyama/framework/graph/core/executor.cpp:693-725 | alias.key stands for the literal the row's map has under the key; a row that is itself a literal has it under _value |
| `Execution.UnwindIsLoopIff` | graph-service/src/tateyama/framework/graph/core/executor.cpp:683-753 | as a whole statement this holds if and only if the list has elements or the CREATEs create nothing: with an empty list the executor skips the UNWIND and runs the CREATEs once |
| `Witnesses.EmptyUnwindCreates` | graph-service/src/tateyama/framework/graph/core/executor.cpp:683-753 | an input: UNWIND [] AS x CREATE (:P) in an empty database ends with a node |
| `Executor.Executor.IntersectIndexed` | graph-service/src/tateyama/framework/graph/core/executor.cpp:184-218 | inline literal properties through the index, lists sorted and intersected |
| `Executor.Executor.ScanLabel` | graph-service/src/tateyama/framework/graph/core/executor.cpp:227-250 | the streaming label scan with its inline filter |
| `Executor.Executor.MatchFirstNode` | graph-service/src/tateyama/framework/graph/core/executor.cpp:178-256 | which of the two is used and what is bound |
| `Executor.Executor.MatchRelationships` | graph-service/src/tateyama/framework/graph/core/executor.cpp:259-317 | the hop loop with its label cache |
| `Executor.Executor.ExecuteMatch` | graph-service/src/tateyama/framework/graph/core/executor.cpp:174-321 | all paths |
| `Matching.IntersectMembers` | graph-service/src/tateyama/framework/graph/core/executor.cpp:209-216 | the merge intersection of sorted lists is the set intersection, sorted |
| `Matching.HopsEnumerateWalks` | graph-service/src/tateyama/framework/graph/core/executor.cpp:259-317 | following a list of hops from a list of nodes yields every matching walk exactly once, at its end node |
| `Matching.MatchEnumeratesWalks` | graph-service/src/tateyama/framework/graph/core/executor.cpp:174-318 | for a path of distinct named variables, all new but perhaps the first, the last variable is bound to the ends of all matching walks from the start list, one entry per walk, and every relationship list is aligned with its hop's target list; the start may be bound already, looked up through the index, scanned by label, or found nowhere |
| `Matching.MatchCarries` | graph-service/src/tateyama/framework/graph/core/executor.cpp:219-316 | after MATCH every bound node variable carries the label its pattern asks for; only a first variable that was bound before and whose scan finds nothing keeps an older one |
| `Matching.IndexedIdsAre` | graph-service/src/tateyama/framework/graph/core/executor.cpp:184-218 | inline literal properties through the index give exactly the nodes of the label that have all of them up to canonical form, or had them when they were deleted, sorted |
| `Executor.Executor.ExecuteWhere` | graph-service/src/tateyama/framework/graph/core/executor.cpp:323-472 | the three paths of WHERE |
| `WhereResults.StringsKept` | graph-service/src/tateyama/framework/graph/core/executor.cpp:323-417 | WHERE x.key op text, for all six operators and whether the index or the full scan is used: a live node with a string is kept exactly when the string is on the side of the text the operator asks for |
| `WhereResults.StringOrderLaws` | graph-service/src/tateyama/framework/graph/core/executor.cpp:323-417 | what is larger than a string kept by > is kept by >, what is smaller by <; the text itself passes <= and >= only; <> keeps what < and > keep; nothing is kept by both |
| `WhereResults.NumbersKept` | graph-service/src/tateyama/framework/graph/core/executor.cpp:323-417 | the same for numbers by their real values, <> included; the index goes wrong only for the exceptional numbers |
| `WhereResults.EqualNumbersKept` | graph-service/src/tateyama/framework/graph/core/executor.cpp:345-417 | with a number, = keeps equal patterns through the index and equal texts in the full scan |
| `WhereResults.TextNeverComparesWithNumber` | graph-service/src/tateyama/framework/graph/core/executor.cpp:391-417 | a text that is no number passes no comparison with a number, not even <> |
| `WhereResults.NoValueNotKept` | graph-service/src/tateyama/framework/graph/core/executor.cpp:323-417 | a live node without the property is never kept |
| `Where.EqualityPathsAgreeIff` | graph-service/src/tateyama/framework/graph/core/executor.cpp:345-417 | for "=" the index path keeps every id the full scan keeps, and no other if and only if the canonical form is injective on the values involved, no deleted node had the value, and the literal is not an empty string some node has |
| `Witnesses.EqualNumbersDifferentTexts` | graph-service/src/tateyama/framework/graph/core/executor.cpp:345-417 | an input: 30 finds a stored 30.0 through the index and not by the scan |
| `Witnesses.DeletedNodeIsFound` | graph-service/src/tateyama/framework/graph/core/executor.cpp:615-638 | an input: a deleted node is found through the index and not by the scan |
| `Where.RangePathsAgreeIff` | graph-service/src/tateyama/framework/graph/core/executor.cpp:365-417 | for a number and >, >=, <, <= both paths keep the same ids if and only if no live candidate has an exceptional number and the last number of no deleted candidate lies in the interval |
| `Witnesses.NaNIsFound` | graph-service/src/tateyama/framework/graph/core/executor.cpp:365-417 | an input: a stored text that reads as NaN is found by > 1 through the index and not by the scan |
| `Where.StringRangePathsAgreeIff` | graph-service/src/tateyama/framework/graph/core/executor.cpp:365-417 | for a threshold that is no number both paths keep the same ids if and only if every value that compares is not empty, is a string for a live candidate and read as a number for a deleted one |
| `Batching.FullScanBatched` | graph-service/src/tateyama/framework/graph/core/executor.cpp:391-470 | any positive batch size, threshold and number of cores give the one-pass filter's list, order and multiplicity included |
| `Batching.FilterSliced` | graph-service/src/tateyama/framework/graph/core/executor.cpp:431-456 | ceil-divided slices cover a chunk and are joined in order |
| `Executor.Executor.TryIndexedMatchWhere` | graph-service/src/tateyama/framework/graph/core/executor.cpp:52-84 | when the fused path declines and what it binds |
| `Where.FusedAgrees` | graph-service/src/tateyama/framework/graph/core/executor.cpp:52-84 | for one labelled node without inline properties and a fresh variable the fused path binds the same ids as MATCH followed by WHERE, given an exact label scan |
| `Where.FusedCarries` | graph-service/src/tateyama/framework/graph/core/executor.cpp:81-83 | and the fused path binds the variable with the label of the pattern |
| `Where.FusedWithInlinePropertiesIff` | graph-service/src/tateyama/framework/graph/core/executor.cpp:52-84 | with literal inline properties it does so if and only if every node of the label that has, or had when deleted, the value the filter asks for has all the inline properties as well, up to canonical form |
| `Witnesses.FusedIgnoresInline` | graph-service/src/tateyama/framework/graph/core/executor.cpp:52-84 | an input: MATCH (n:P {b: 2}) WHERE n.a = 1 binds a node that has no b |
| `ReturnBatches.ReturnBatched` | graph-service/src/tateyama/framework/graph/core/executor.cpp:474-613 | batched RETURN emits the text of the rows one by one, max(1, longest list) rows, for any positive batch size |
| `ReturnBatches.LoadRows` | graph-service/src/tateyama/framework/graph/core/executor.cpp:501-523 | a batch cache knows the text of every node in the batch's rows |
| `Executor.Executor.ExecuteReturn` | graph-service/src/tateyama/framework/graph/core/executor.cpp:474-613 | the same with the source's batch size |
| `ReturnResults.AnswerReads` | graph-service/src/tateyama/framework/graph/core/executor.cpp:474-613 | a reader that knows nothing of the printer gets back: as many rows as the longest list of a returned variable has ids, and at least one; in row i the i-th id of each list, for x.key the stored value, quoted unless it begins with a digit or a minus sign, and null for none, for x the node's text or else the edge; columns named by alias or expression |
| `ReturnResults.EdgeReads` | graph-service/src/tateyama/framework/graph/core/executor.cpp:546-561 | in a printed edge the JSON lookup finds the id, both ends and the type, the numbers as decimals |
| `ReturnResults.NumberOfDecimal` | graph-service/src/tateyama/framework/graph/core/executor.cpp:548-553 | decimal digits read back as the number |
| `MutatingClauses.DeleteId` | graph-service/src/tateyama/framework/graph/core/executor.cpp:620-634 | a live node with, on DETACH, the edges of both lists; otherwise an edge |
| `Executor.Executor.ExecuteDelete` | graph-service/src/tateyama/framework/graph/core/executor.cpp:615-638 | all lists of the named variables, each variable forgotten after its list |
| `DeleteClause.DetachLeavesNoDanglingEdge` | graph-service/src/tateyama/framework/graph/core/executor.cpp:615-638 | afterwards exactly the listed edges and those incident to a listed live node are gone, all others are unchanged, and the listed nodes have lost their text |
| `DeleteClause.PlainDeleteIs` | graph-service/src/tateyama/framework/graph/core/executor.cpp:615-638 | without DETACH exactly the listed nodes lose their text and exactly the listed edges are gone; every other edge stays, also where one of its ends is gone |
| `DeleteClause.DeletedIdsAre` | graph-service/src/tateyama/framework/graph/core/executor.cpp:615-638 | the deleted ids are those some listed variable is bound to |
| `DeleteClause.ForgottenAre` | graph-service/src/tateyama/framework/graph/core/executor.cpp:615-638 | the listed variables are forgotten and no others |
| `MutatingClauses.CollectPending` | graph-service/src/tateyama/framework/graph/core/executor.cpp:641-668 | phase 1, None where the text update throws |
| `MutatingClauses.WritePending` | graph-service/src/tateyama/framework/graph/core/executor.cpp:670-680 | phase 2 writes every pending node once, in some order |
| `Executor.Executor.ExecuteSet` | graph-service/src/tateyama/framework/graph/core/executor.cpp:640-681 | both phases |
| `SetResults.SetTexts` | graph-service/src/tateyama/framework/graph/core/executor.cpp:640-681 | for literal assignments: the text of every node an assigned variable is bound to is that of its entries with the assignments to it applied in order, for several variables on one node and repeated ids; deleted nodes stay empty and all other nodes keep their text |
| `SetResults.AppliedLookup` | graph-service/src/tateyama/framework/graph/core/executor.cpp:640-681 | under an assigned key a node then holds the last value assigned to it, under any other key what it held |
| `SetResults.SetThenFind` | graph-service/src/tateyama/framework/graph/core/executor.cpp:640-681 | under own labels, the property lookup then finds an assigned node exactly when the last value assigned under the key, or else the old one, has the canonical form asked for |
| `SetClause.DeferredEqualsImmediate` | graph-service/src/tateyama/framework/graph/core/executor.cpp:640-681 | for literal assignments to nodes, deleted ones included, under their own label, deferred writing gives the same node texts and the same index sets as writing every assignment at once, for repeated ids and any order of phase 2 |
| `SetClause.SetIsImmediate` | graph-service/src/tateyama/framework/graph/core/executor.cpp:640-681 | writing every assignment at once is always possible for such assignments, so what SET does is always such an outcome |
| `Executor.Executor.ExecuteUnwind` | graph-service/src/tateyama/framework/graph/core/executor.cpp:683-753 | the loop over the elements, clearing the variables in between |
| `Executor.Executor.Execute` | graph-service/src/tateyama/framework/graph/core/executor.cpp:10-50 | a statement runs as the relation `Execution.StatementRuns` says, with the MATCH and WHERE lookahead |
| `Statements.MatchReturn` | graph-service/src/tateyama/framework/graph/core/executor.cpp:10-50 | MATCH path RETURN items, run by a new executor on a reachable database: the database stays, the path's last variable enumerates its walks, and the answer reads back as the rows of these bindings |
| `Statements.MatchReturnEnds` | graph-service/src/tateyama/framework/graph/core/executor.cpp:10-50 | for a property of the last node: one row per walk, with the value stored where that walk ends |
| `Statements.StartsAtLabel` | graph-service/src/tateyama/framework/graph/core/executor.cpp:227-256 | a labelled start without properties is all nodes created with the label |
| `Statements.StartsAtScan` | graph-service/src/tateyama/framework/graph/core/executor.cpp:227-256 | with properties that are not all literals, a live node of the label starts a walk exactly when it stores the text of every literal one |
| `Statements.MatchWhereReturn` | graph-service/src/tateyama/framework/graph/core/executor.cpp:10-50 | MATCH path WHERE x.key op value RETURN items, where the two are not fused: the rows of the walks with the filter's list cut down to the ids whose stored values pass |
| `Statements.FusedSameRows` | graph-service/src/tateyama/framework/graph/core/executor.cpp:10-50 | where they are fused, the same rows as sets, and as many, as the clauses one after the other |
| `Statements.MatchSet` | graph-service/src/tateyama/framework/graph/core/executor.cpp:10-50 | MATCH path SET assignments leaves the texts of the nodes with the assignments applied |
| `Statements.MatchDelete` | graph-service/src/tateyama/framework/graph/core/executor.cpp:10-50 | MATCH path DELETE variables, with and without DETACH: which nodes and edges go and which variables are forgotten |
| `Statements.UnwindStatementAnswers` | graph-service/src/tateyama/framework/graph/core/executor.cpp:683-753 | UNWIND list AS x MATCH path RETURN items answers the rows of the walks and leaves the database as it was |
| `Statements.NestedUnwindIsSkipped` | graph-service/src/tateyama/framework/graph/core/executor.cpp:727-745 | an UNWIND inside an UNWIND does nothing |
| `Statements.CreateStatement` | graph-service/src/tateyama/framework/graph/core/executor.cpp:10-50 | CREATE paths as a statement: all of them are there afterwards |
| `Execution.QueriesKeepDb` | graph-service/src/tateyama/framework/graph/core/executor.cpp:10-50 | a statement without CREATE, SET and DELETE succeeds and leaves the database unchanged, id counters included |
| `QueryCache.QueryCache.Get` | graph-service/include/tateyama/framework/graph/core/query_cache.h:363-374 | a hit moves the key to the front; the three structures stay coupled |
| `QueryCache.QueryCache.Put` | graph-service/include/tateyama/framework/graph/core/query_cache.h:379-403 | update in place, or eviction of the last key when full; the three structures stay coupled |
| `QueryCache.QueryCache.Clear` | graph-service/include/tateyama/framework/graph/core/query_cache.h:405-410 | empties all three |
| `QueryCache.QueryCache.Size` | graph-service/include/tateyama/framework/graph/core/query_cache.h:412-415 | the number of keys, within capacity |
| `QueryCache.ListNamesKeys` | graph-service/include/tateyama/framework/graph/core/query_cache.h:417-423 | the list names every cached key once |
| `QueryCache.QueryCache.Lookup` | graph-service/src/tateyama/framework/graph/service.cpp:159-167 | lookup, parse and put on a miss |
| `QueryCache.QueryCache.ServeAll` | graph-service/src/tateyama/framework/graph/service.cpp:159-167 | on a new cache a trace of requests leaves the reference list, and each request gets what parsing gives |
| `Lru.LatestByLastUse` | graph-service/include/tateyama/framework/graph/core/query_cache.h:363-403 | the reference order: exactly the parsing queries of a trace, by their last use |
| `Lru.TraceKeepsLatest` | graph-service/include/tateyama/framework/graph/core/query_cache.h:363-403 | after any trace the cache holds the last `capacity` distinct queries that parse, each with its parsed statement |
| `Lru.SmallerIsPrefix` | graph-service/include/tateyama/framework/graph/core/query_cache.h:363-403 | on the same trace a smaller cache's list is a prefix of a larger one's, and its hits are hits there too |
| `AstCopy.CloneExpr` | graph-service/include/tateyama/framework/graph/core/query_cache.h:203-237 | same shape, same values, fresh and distinct literals |
| `AstCopy.CloneWhere` | graph-service/include/tateyama/framework/graph/core/query_cache.h:292-309 | the legacy value of a copied comparison is the same object as the copied right side |
| `AstCopy.DeepCopyStatement` | graph-service/include/tateyama/framework/graph/core/query_cache.h:239-346 | the same for whole statements: no literal is shared with anything that existed |
| `Rebinding.VisitLiterals` | graph-service/include/tateyama/framework/graph/core/query_cache.h:72-117 | the visited literals in order: create, where, set and unwind clauses, through comparisons but not into lists and maps |
| `Rebinding.VisitedStatement` | graph-service/include/tateyama/framework/graph/core/query_cache.h:72-117 | these are, clause by clause, the literals of CREATE patterns, WHERE conditions, assigned values and UNWIND expressions, from left to right and not inside lists and maps; MATCH, RETURN and DELETE are passed over |
| `Rebinding.SetPosition` | graph-service/include/tateyama/framework/graph/core/query_cache.h:72-117 | the literal of the i-th assignment of a last SET stands i places after those of the clauses before |
| `Rebinding.ExtractLiterals` | graph-service/include/tateyama/framework/graph/core/query_cache.h:124-129 | their values |
| `Rebinding.BindLiterals` | graph-service/include/tateyama/framework/graph/core/query_cache.h:192-199 | values are handed out in order until they run out; only visited literals change |
| `Rebinding.BindingsAt` | graph-service/include/tateyama/framework/graph/core/query_cache.h:192-199 | different literals get the value of their own position |
| `Rebinding.BindThenExtract` | graph-service/include/tateyama/framework/graph/core/query_cache.h:124-199 | extracting after binding gives the bound values, then the old ones |
| `Rebinding.Instantiate` | graph-service/include/tateyama/framework/graph/core/query_cache.h:192-346 | binding a copy changes nothing that existed before the copy, and the copy reads the new values |
| `Lexer.Lexer.ScanIdentifierOrKeyword` | graph-service/src/tateyama/framework/graph/core/parser.cpp:59-82 | longest name, keywords in any case |
| `Lexer.Lexer.ScanString` | graph-service/src/tateyama/framework/graph/core/parser.cpp:84-94 | up to the closing quote, backslash skipping one character; an unterminated string loses its last character |
| `Lexer.Lexer.ScanNumber` | graph-service/src/tateyama/framework/graph/core/parser.cpp:96-102 | digits and dots |
| `Lexer.Lexer.ScanSymbol` | graph-service/src/tateyama/framework/graph/core/parser.cpp:104-146 | symbols of one and two characters |
| `Lexer.Lexer.Tokenize` | graph-service/src/tateyama/framework/graph/core/parser.cpp:10-29 | the whole token list |
| `Lexer.PositionsIncrease` | graph-service/src/tateyama/framework/graph/core/parser.cpp:10-29 | on every input token positions increase strictly, and the end marker is last and only there |
| `Parsing.AssignIsMapUpdate` | graph-service/src/tateyama/framework/graph/core/parser.cpp:386-397 | assigning to a property map keeps keys ascending and unique and changes one key only |
| `Parser.Parser.ParseExpression` | graph-service/src/tateyama/framework/graph/core/parser.cpp:399-444 | expressions, nested lists and maps included |
| `Parser.Parser.ParsePatternPath` | graph-service/src/tateyama/framework/graph/core/parser.cpp:304-327 | a path of nodes and relationships |
| `Parser.Parser.ParseRelationshipPattern` | graph-service/src/tateyama/framework/graph/core/parser.cpp:351-384 | direction, optional brackets |
| `Parser.Parser.ParseWhereClause` | graph-service/src/tateyama/framework/graph/core/parser.cpp:241-265 | comparison with legacy fields |
| `Parser.Parser.ParseDeleteClause` | graph-service/src/tateyama/framework/graph/core/parser.cpp:193-203 | DETACH and DELETE |
| `Parser.Parser.ParseOneClause` | graph-service/src/tateyama/framework/graph/core/parser.cpp:188-207 | clause by its first token; a clause takes at least one token or fails |
| `Parser.Parser.ParseStatement` | graph-service/src/tateyama/framework/graph/core/parser.cpp:150-156 | clauses up to the end marker, and termination |
| `Parser.ParseQuery` | graph-service/src/tateyama/framework/graph/service.cpp:161-163 | lexer and parser together |
| `LexRoundTrip.LexTrip` | graph-service/src/tateyama/framework/graph/core/parser.cpp:10-146 | every spelling of the words, keywords in any case, any white space in between, strings with either quote, lexes back to the words |
| `LexRoundTrip.LexedString` | graph-service/src/tateyama/framework/graph/core/parser.cpp:84-94 | a quoted text, with escaped quotes and backslashes in it, lexes to one string that keeps the backslashes |
| `LexRoundTrip.LexedIsQuotable` | graph-service/src/tateyama/framework/graph/core/parser.cpp:84-94 | conversely, what stands between a quote and its closing quote can be quoted |
| `ParseRoundTrip.ClausesTrip` | graph-service/src/tateyama/framework/graph/core/parser.cpp:150-452 | the words of a well-formed statement parse back to it |
| `LexRoundTrip.ParseInvertsSpelling` | graph-service/src/tateyama/framework/graph/core/parser.cpp:10-452 | every such spelling of a well-formed statement parses to that statement |
| `LexRoundTrip.ParseInvertsRender` | graph-service/src/tateyama/framework/graph/core/parser.cpp:10-452 | lexing and parsing the canonical text of a well-formed statement returns that statement |
| `ParsedShape.ParsedIsWellFormed` | graph-service/src/tateyama/framework/graph/core/parser.cpp:10-452 | conversely, whatever a text parses to whose strings can be quoted is well formed, and its canonical text parses to the same |
| `Service.Service.Lookup` | graph-service/src/tateyama/framework/graph/service.cpp:157-167 | cached or not, a request works on what its text parses to |
| `Service.Service.RunOnce` | graph-service/src/tateyama/framework/graph/service.cpp:169-199 | one execution with commit or abort; without success the tables are as before; a statement that runs through succeeds, fails or is repeated as the commit says |
| `Service.Service.Cypher` | graph-service/src/tateyama/framework/graph/service.cpp:143-210 | at most one execution takes effect over all attempts; pauses double, at most five attempts; for a query that runs through, the first attempt that is not repeated decides: it ends in success if that attempt commits, and five repeated attempts exhaust the request |
| `Service.ReadsWillRun` | graph-service/src/tateyama/framework/graph/service.cpp:143-210 | a query that only reads runs through |
| `Service.BackoffIs` | graph-service/src/tateyama/framework/graph/service.cpp:143-210 | the pauses are 10, 20, 40, ... milliseconds |

## Left out

- Shirakami behind the key-value store: conflicts, epochs and the write-ahead log. One transaction at a time works on an ordered map.
- The abort of a transaction appears only in `Service`: the tables go back and the id counters do not. A sequence put is taken as durable.
- Lifecycle of the resource and the service, protobuf messages, logging, and the node and edge GET requests.
- `normalize_query` and `ast_cache_key`: the service does not use them.
- `remove_property_index`: nothing in the engine calls it.
- Threads as such: a chunk is split into slices and the slices' results are joined, one after the other.
- Error texts: a parser or updater that throws is a None, or the status `Thrown`.
- The C locale and ASCII are assumed for character classes; bytes above 127 are symbols to the lexer.
- AST nodes other than literals: nothing ever changes them, so they are values, and sharing them is not visible. `AstCopy` is about literal objects.
- A lexer or parser position past the end of a 64-bit size: positions are unbounded naturals.
- Storage.Storage.FindEdge: where 20 + label size wraps around in 32 bits the source reads past the record; the model returns None there.
- SortableDouble.EncodeSortableDouble: bit operations are written as arithmetic on the 64-bit pattern (complement is 2^64 - 1 minus the pattern).
- Runs.RunKeepsInv: labels have no NUL, texts have distinct keys without NUL, and updates name the label a node was created with or none; an update under another label would break the index, and one without a label that changes an index key is the subject of `Runs.PlainUpdateKeepsInvIff`. A deleted node is only updated to the empty text, which is what the updater makes of its text.
- Executor.Executor.MatchRelationships: when a relationship variable has the name of the node variable it starts from, the source appends to the list it iterates; the model iterates the list as it was.
- Executor.Executor.ExecuteMatch: the same, since it runs those loops.
- Where.StringRangePathsAgreeIff: a quoted threshold that reads as a number is not covered; there the index compares numbers and the full scan compares texts.
- AstCopy.CloneExpr: only literals are objects; freshness of the other copied nodes, which nothing ever changes, is not stated.
- AstCopy.DeepCopyStatement: likewise, disjointness is stated for literals.
- LexRoundTrip.ParseInvertsRender: a string that neither quote can enclose, which only a text with an unclosed string yields, has no canonical text. White space between words is required, although the lexer needs it only between names, numbers and some symbols.
- ReturnResults.AnswerReads: values that begin with a digit or a minus sign are printed without quotes; one that contains a comma or a closing brace cannot be told from what follows and is excluded. Returned literals, lists and maps print nothing and are excluded.
- CreateResults.CreateIsMatched: elements without a name are created alike but have no binding to state it with.
- Statements.MatchSet: assigned texts are taken as printed with each assigned key found; `JsonLaws.UpdatePrint` says what happens otherwise.
- Service.Service.Cypher: waiting and commit are parameters; that a commit that is not OK discards the writes is part of the model.
- SetClause.DeferredEqualsImmediate: stale labels, which a variable can keep when a later MATCH binds it again without a label, are excluded by requiring each node's own label.
