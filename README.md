# mettis search core in Dafny

A model of the Go core of the mettis search engine (`internal/index` and
`internal/storage`) with its properties proved.

- **Skip lists.** A `SkipList` is a class over linked `Node`s. Each node has a
  32-slot tower. Ghost sequences of nodes, keys and tower heights say what the
  list holds. `Search`, `Find`, `FindLessThan`, `FindGreaterThan`, `Insert`,
  `Last` and `Shrink` are proved against those sequences (module `SkipLists`).
- **Positions.** A position is a (document, offset) pair with BOF and EOF
  sentinels, compared lexicographically. `Succ` and `Pred` are the least
  posting above a position and the greatest one below it (module `Postings`).
- **Inverted index.** An `InvertedIndex` is a class holding one skip list per
  token (module `InvertedIndexes`). Its methods are:
  - indexing: `ConcurrentIndex` and `Index`;
  - navigation: `First`, `Last`, `Next` and `Previous`;
  - phrase search: `NextPhrase` and `FindAllPhrases`;
  - covers: `NextCover`;
  - ranking: `RankProximity`;
  - storage: `Encode`.

  Each method is proved to compute a function on the abstract view of the
  index. That view maps each token to its postings in list order (modules
  `Queries` and `Indexing`). Lemmas then say what those functions mean:
  - the least posting after a position;
  - the first phrase occurrence;
  - a span that holds every token;
  - documents in ascending order.
- **Segment encoding.** The byte image that `Encode` writes and `Decode` reads
  back is modelled with little-endian integers (modules `Codec` and `Bytes`).
  The decoder reads back exactly the encoded lists, with their towers.
- **Hybrid search fusion.** `mergeResult` fuses the full-text and semantic
  rankings by reciprocal rank and keeps the top k (module `Fusion`).
- **Storage.** The memtable (module `Memtables`) and the `IndexStorage` queue
  of memtables are modelled. For the queue, the model covers the size guard,
  rotation, flushing into numbered segments, the oversize drop, and the
  top-k merge of `Get` (module `Storage`).
- **File provider.** The provider's file counter, its `%06d.segment` file
  names and the directory-listing parser are modelled (module `Providers`).

In the source, `InvertedIndex.Index` replaces a token's postings instead of
adding to them, and `NextCover` can return a span that misses a token. The
model keeps both behaviours as written. `IndexAccumulating`,
`NextCoverFixed` and `RankProximityFixed` are the corrected versions, and
"## Findings" pairs each defect with a lemma that exhibits it.

## Model

| member | source | states |
|---|---|---|
| SkipLists.SkipList.constructor | internal/index/skip_list.go:44-49 | a new list is valid, empty, of height 1, and all its nodes are fresh |
| SkipLists.SkipList.Search | internal/index/skip_list.go:51-106 | returns a node iff the key is present, and then the node holding it; journey[l] is the level-l predecessor of the key's place below the height, nil above it |
| SkipLists.SkipList.Descend | internal/index/skip_list.go:55-99 | the top-down walk stops at the key's lower bound and records every level's predecessor |
| SkipLists.SkipList.DescendLevel | internal/index/skip_list.go:57-99 | one level of the walk: it keeps the predecessors recorded so far and adds this level's predecessor |
| SkipLists.SkipList.WalkLevel | internal/index/skip_list.go:58-96 | walking right on one level ends at the level's last node below the key, and next is that node's successor on the level |
| SkipLists.SkipList.Find | internal/index/skip_list.go:108-115 | a present key is returned with no error; an absent one gives EOF and "key not found" |
| SkipLists.SkipList.FindLessThan | internal/index/skip_list.go:117-129 | returns Pred, the greatest key below; the error is set iff no key is below, with the source's two messages |
| SkipLists.SkipList.FindGreaterThan | internal/index/skip_list.go:131-150 | returns Succ, the least key above; the error is set iff no key is above |
| SkipLists.SkipList.NodeAbove | internal/index/skip_list.go:132-147 | the node reached is the first one whose key lies above the given key |
| SkipLists.SkipList.Insert | internal/index/skip_list.go:152-178 | a present key changes nothing; an absent key is inserted at its lower bound, with a height in [1, 32], and the list height becomes the maximum |
| SkipLists.SkipList.Splice | internal/index/skip_list.go:160-177 | splicing a new key after the recorded predecessors keeps the list valid and inserts the key in order |
| SkipLists.SkipList.Relink | internal/index/skip_list.go:163-172 | after the per-level relinking, the new node and its predecessors' towers are those of the list with the key inserted |
| SkipLists.SkipList.Commit | internal/index/skip_list.go:174-176 | the abstract node, key and height sequences gain the new entry at its rank, and the height is raised when the tower is taller |
| SkipLists.SkipList.LinkIn | internal/index/skip_list.go:163-172 | level by level, the new node takes its predecessor's successor and the predecessor points to the new node; every other tower is unchanged |
| SkipLists.SkipList.RandomHeight | internal/index/skip_list.go:221-228 | the chosen height lies in [1, MaxHeight] |
| SkipLists.SkipList.Last | internal/index/skip_list.go:202-211 | the last key, which is at least every key, or the head's key (0,0) for an empty list |
| SkipLists.SkipList.Shrink | internal/index/skip_list.go:213-219 | the height becomes the tallest tower, and nothing else changes |
| SkipLists.SkipList.LevelsNest | internal/index/skip_list.go:34-37 | the nodes linked on level l are exactly those taller than l, and each higher level is a sublist of the one below it |
| SkipLists.LowerBound | internal/index/skip_list.go:59-77 | the rank of the key among sorted keys: every key before it is smaller and none after it is |
| SkipLists.LowerBoundFinds | internal/index/skip_list.go:101-105 | a key is present iff the key at its lower bound equals it |
| SkipLists.AbovePartition | internal/index/skip_list.go:131-150 | keys up to and including the given key come before the successor position, and keys above it come from there on |
| SkipLists.InsertKeepsSorted | internal/index/skip_list.go:152-178 | inserting an absent key at its lower bound keeps the keys strictly sorted |
| Postings.SuccIsLeast | internal/index/skip_list.go:131-150 | Succ is EOF iff no key is above, and otherwise it is below or equal to every key above |
| Postings.PredIsGreatest | internal/index/skip_list.go:117-129 | Pred is BOF iff no key is below, and otherwise it is above or equal to every key below |
| Postings.LtTotal | internal/index/skip_list.go:59-77 | the lexicographic position order is total |
| InvertedIndexes.TokenOffsets | internal/index/index.go:28-37 | maps each token of the document to all its offsets, in increasing order |
| InvertedIndexes.InsertOffsets | internal/index/index.go:50-52 | the list's keys become the old keys with the document's postings inserted |
| InvertedIndexes.FreshList | internal/index/index.go:45-53 | a new list holds exactly the document's postings |
| InvertedIndexes.InvertedIndex.constructor | internal/index/index.go:20-25 | a new index is valid and has no tokens |
| InvertedIndexes.InvertedIndex.Put | internal/index/index.go:66-67 | storing a token's list updates that token's entry and leaves the others unchanged |
| InvertedIndexes.InvertedIndex.IndexToken | internal/index/index.go:44-56 | one token's list becomes NewList: fresh (replace) or the old list plus the document (merge) |
| InvertedIndexes.InvertedIndex.IndexDocument | internal/index/index.go:60-69 | after all the document's tokens, the lists are Partly over the whole token set |
| InvertedIndexes.InvertedIndex.ConcurrentIndex | internal/index/index.go:27-70 | every token of the document gets a list of exactly its offsets in this document; other tokens are untouched |
| InvertedIndexes.InvertedIndex.Index | internal/index/index.go:91-95 | indexing a document is ConcurrentIndex: its tokens' lists are replaced |
| InvertedIndexes.InvertedIndex.IndexAccumulating | internal/index/index.go:97-107 | the merging loop: every token's list gains the document's offsets and keeps its earlier postings |
| InvertedIndexes.InvertedIndex.First | internal/index/index.go:110-118 | the token's first posting, or EOF with an error for an unknown token |
| InvertedIndexes.InvertedIndex.Last | internal/index/index.go:120-128 | the token's last posting, or EOF with an error for an unknown token |
| InvertedIndexes.InvertedIndex.Next | internal/index/index.go:130-149 | First from BOF, EOF from EOF, otherwise the least posting above the position (NextOfLeast) |
| InvertedIndexes.InvertedIndex.Previous | internal/index/index.go:151-169 | Last from EOF, BOF from BOF, otherwise the greatest posting below the position (PrevOfGreatest) |
| InvertedIndexes.InvertedIndex.PhraseEnd | internal/index/index.go:174-178 | the forward chain of Next calls over the query's terms |
| InvertedIndexes.InvertedIndex.PhraseStart | internal/index/index.go:184-189 | the backward chain of Previous calls from the chain's end |
| InvertedIndexes.InvertedIndex.NextPhrase | internal/index/index.go:171-196 | the empty query gives the EOF pair; otherwise the first occurrence of the phrase after the position (PhraseIsFirst) |
| InvertedIndexes.InvertedIndex.FindAllPhrases | internal/index/index.go:198-213 | every occurrence of the phrase, in ascending order (PhrasesFromFacts) |
| InvertedIndexes.InvertedIndex.CoverEnd | internal/index/index.go:218-235 | the greatest of the tokens' next postings after the position |
| InvertedIndexes.InvertedIndex.CoverStartAsWritten | internal/index/index.go:243-254 | the second loop with the minimum test of line 251 as written |
| InvertedIndexes.InvertedIndex.CoverStart | internal/index/index.go:243-254 | the second loop with the evident minimum test: the least of the tokens' last postings before the end |
| InvertedIndexes.InvertedIndex.NextCover | internal/index/index.go:215-261 | the span computed with line 251 as written (CoverAsWrittenFacts) |
| InvertedIndexes.InvertedIndex.NextCoverFixed | internal/index/index.go:215-261 | with the minimum test corrected, the next cover after the position, which holds every token (CoverIsCover) |
| InvertedIndexes.InvertedIndex.RankCovers | internal/index/index.go:268-300 | the empty query gives no results and a negative k gives Failure; otherwise the first k groups of consecutive covers by document, each scored by the sum of 1/(v−u+1) |
| InvertedIndexes.InvertedIndex.RankProximity | internal/index/index.go:268-300 | RankCovers over the covers as written |
| InvertedIndexes.InvertedIndex.RankProximityFixed | internal/index/index.go:268-300 | RankCovers over the corrected covers, so every match is a real cover (RankedMatches) |
| InvertedIndexes.InvertedIndex.HeightsTowered | internal/index/index.go:356-403 | every list's recorded tower heights are the ones the encoder writes |
| InvertedIndexes.InvertedIndex.Encode | internal/index/index.go:302-407 | the image is the concatenation of each token's list bytes, every token exactly once, and when every position fits in 32 bits it decodes to exactly the index's lists and towers |
| Queries.NextOfLeast | internal/index/index.go:130-149 | Next gives EOF iff the token has no posting beyond the position; otherwise a posting beyond it that is at most every such posting |
| Queries.PrevOfGreatest | internal/index/index.go:151-169 | Previous gives BOF iff the token has no posting before the position; otherwise a posting before it that is at least every such posting |
| Queries.PhraseRound | internal/index/index.go:171-196 | one forward and backward round: EOF iff no occurrence lies beyond; otherwise u is at most every occurrence beyond, and the span has length n−1 iff u starts an occurrence |
| Queries.PhraseIsFirst | internal/index/index.go:171-196 | the answer is EOF iff no occurrence lies beyond the position; otherwise it is the least occurrence beyond it, with v = u + (n−1) |
| Queries.PhrasesFromFacts | internal/index/index.go:198-213 | every returned pair is an occurrence, the pairs ascend, and every occurrence is returned |
| Queries.PhraseRoundProgress | internal/index/index.go:191-195 | a round that finds no occurrence restarts strictly further on and does not change the answer |
| Queries.EmptyPhraseRestartsInPlace | internal/index/index.go:171-196 | with no terms a round restarts at the same position, so the recursion never ends |
| Queries.CoverEndFacts | internal/index/index.go:218-239 | the end is EOF iff a token has no posting beyond the position; otherwise it is a posting beyond it |
| Queries.CoverStartLeast | internal/index/index.go:243-254 | the corrected start is the least of the tokens' last postings at or before the end |
| Queries.CoverIsCover | internal/index/index.go:215-261 | the corrected cover is EOF iff some token has no posting beyond; otherwise it is a span in one document holding every token, starting at a posting beyond the position |
| Queries.CoverAsWrittenFacts | internal/index/index.go:215-261 | the span as written is EOF iff a token is exhausted; otherwise it lies in one document, in order, and starts at a posting beyond the position |
| Queries.CoverAsWrittenMissesToken | internal/index/index.go:251 | on a two-token index the span as written misses a token, where the corrected one is a cover |
| Queries.CoversAscend | internal/index/index.go:282-293 | the ranking loop's spans ascend strictly, and with the fix each is a cover |
| Queries.Covers | internal/index/index.go:282-293 | the sequence of spans the ranking loop visits ends at EOF |
| Queries.Group | internal/index/index.go:282-297 | groups consecutive spans by document; each match keeps its group's first span |
| Queries.GroupPairs | internal/index/index.go:282-297 | each match's score is the sum of 1/(v−u+1) over its group's spans |
| Queries.GroupAscends | internal/index/index.go:282-297 | the matches' documents strictly ascend |
| Queries.RankFromIsGroup | internal/index/index.go:282-297 | the source's ranking loop computes Group of the spans it visits |
| Queries.RankedMatches | internal/index/index.go:268-300 | ranked matches ascend by document and have positive scores, and with the fix each match's offsets are a cover |
| Queries.Take | internal/index/index.go:299 | the first min(k, n) results |
| Indexing.OffsetsOfSound | internal/index/index.go:28-37 | every recorded offset holds the token |
| Indexing.OffsetsOfComplete | internal/index/index.go:28-37 | every offset holding the token is recorded |
| Indexing.OffsetsOfIncreasing | internal/index/index.go:28-37 | the offsets strictly increase |
| Indexing.InsertAllHolds | internal/index/index.go:50-52 | inserting postings one by one gives exactly the old and the new postings |
| Indexing.MergedKeepsPostings | internal/index/index.go:97-107 | after merging, each token's list holds its earlier postings and the document's offsets, and no others |
| Indexing.PartlyReplaced | internal/index/index.go:60-69 | indexing every token with replacement gives Replaced |
| Indexing.PartlyMerged | internal/index/index.go:97-107 | indexing every token with merging gives Merged |
| Indexing.ReplacedLosesPostings | internal/index/index.go:66 | after a second document with the same token, only the second document's posting remains |
| Indexing.MergedKeepsBoth | internal/index/index.go:97-107 | after merging, both documents' postings remain, in order |
| Codec.ListOf | internal/index/index.go:416-477 | reading one token's list consumes input, so the decoding loop ends |
| Codec.TowersFrom | internal/index/index.go:450-468 | reads exactly one tower per node |
| Codec.ListRead | internal/index/index.go:409-483 | reading the bytes of one encodable list gives back its term, keys and towers, and the rest of the input |
| Codec.IndexRead | internal/index/index.go:409-483 | decoding a sequence of encodable entries gives their lists, later entries overriding earlier ones |
| Codec.DecodesToOverride | internal/index/index.go:409-483 | Decode of an index image is the map the entries define |
| Codec.RoundTrip | internal/index/index.go:302-483 | for distinct terms, decoding the image gives exactly the terms written, each with its keys and its towers |
| Codec.EncodedReadsBack | internal/index/index.go:302-483 | for an enumeration of storable lists, decoding gives each token's keys and towers back |
| Codec.EncodeLists | internal/index/index.go:306-406 | the loop over the postings map writes each token exactly once and produces the image of those entries |
| Codec.EncodeList | internal/index/index.go:308-405 | one token's bytes: term length and bytes, node count and (document, offset) pairs, then each node's tower |
| Codec.NumberNodes | internal/index/index.go:322-347 | numbers the head and the level-0 nodes in order, and writes their key pairs |
| Codec.LinkedNodes | internal/index/index.go:362-370 | collects a node's non-nil tower links, in level order |
| Codec.TowerImage | internal/index/index.go:366-380 | writes a tower's node numbers as uint16 values |
| Codec.NodeImage | internal/index/index.go:356-401 | one node's tower bytes, with an empty tower written as a single 0 |
| Codec.TowersImage | internal/index/index.go:356-403 | the tower bytes of every node, in level-0 order |
| Bytes.ReadU16Written | internal/index/index.go:460 | reading back a written uint16 gives its value |
| Bytes.ReadU32Written | internal/index/index.go:416 | reading back a written uint32 gives its value |
| Fusion.FtsScore | internal/index/hybrid_search.go:109 | the full-text score 1.1/(r+1) lies in (0, 1.1] |
| Fusion.SemanticScore | internal/index/hybrid_search.go:115 | the semantic score 1/(r+1) lies in (0, 1] |
| Fusion.FusedEntry | internal/index/hybrid_search.go:104-125 | a key is fused iff it occurs in either ranking; its score is the full-text score of its last full-text rank plus its semantic scores |
| Fusion.InBoth | internal/index/hybrid_search.go:107-125 | a key ranked once in each list keeps its full-text offsets and gets the sum of both scores |
| Fusion.FtsOnly | internal/index/hybrid_search.go:107-112 | a key only in the full-text ranking keeps its full-text offsets and score |
| Fusion.SemanticOnly | internal/index/hybrid_search.go:114-125 | a key only in the semantic ranking gets its semantic offsets and score |
| Fusion.SortByScore | internal/index/hybrid_search.go:131-133 | a permutation of its input, in non-increasing score order |
| Fusion.SortedPrefixIsTopK | internal/index/hybrid_search.go:131-136 | the first min(k, n) of a sorted permutation are a top-k selection |
| Fusion.TopK | internal/index/hybrid_search.go:131-136 | a negative k gives Failure; otherwise min(k, n) results, drawn from the input, in score order, none beaten by a result left out |
| Fusion.MergeResult | internal/index/hybrid_search.go:104-137 | the fused map in some iteration order, and the top k of its entries |
| Fusion.MergeExampleTopTwo | internal/index/hybrid_search_test.go:8-33 | the test's two rankings fuse to [(1,2..3) 2.1, (2,3..4) 0.55] |
| Memtables.Memtable.constructor | internal/storage/memtable.go:14-22 | a new memtable has nothing used under its limit |
| Memtables.Memtable.Insert | internal/storage/memtable.go:34-46 | the document is added and sizeUsed becomes the new encoding's length, so there is room for data iff twice the size plus its length fits the limit |
| Storage.NumberedAppend | internal/storage/db.go:158-171 | segments appended from numbers f+1 on keep strictly increasing file numbers |
| Storage.LoadSegments | internal/storage/db.go:186-231 | a listing failure is returned unchanged; otherwise the segments, in listing order, and the counter is the last segment's number |
| Storage.Open | internal/storage/db.go:37-52 | the loaded segments, and a queue holding one fresh, empty, mutable memtable |
| Storage.IndexStorage.constructor | internal/storage/db.go:43-49 | the queue is the fresh mutable memtable alone |
| Storage.IndexStorage.RotateMemtables | internal/storage/db.go:88-92 | a fresh empty memtable becomes mutable and is appended to the queue |
| Storage.IndexStorage.FlushMemtables | internal/storage/db.go:147-173 | all but the last queued memtable (all of them for one) become new segments with increasing file numbers |
| Storage.IndexStorage.MaybeScheduleFlush | internal/storage/db.go:129-145 | flushes iff the queue's total size exceeds the threshold |
| Storage.IndexStorage.Index | internal/storage/db.go:54-86 | too large: an error and nothing changes; otherwise the write, rotation, flush and oversize drop as written, with a panic when the drop slices an empty queue |
| Storage.IndexStorage.Write | internal/storage/db.go:63-69 | writes to the mutable memtable, or to a fresh one appended after rotation when it has no room |
| Storage.IndexStorage.FlushAndDrop | internal/storage/db.go:71-83 | the flush then the oversize drop, in order |
| Storage.IndexStorage.DropOversized | internal/storage/db.go:73-83 | an oversized mutable memtable is dropped with the one before it, and a fresh one is appended |
| Storage.IndexStorage.Get | internal/storage/db.go:94-127 | a negative k gives Failure; otherwise the top k of the memtables' results, newest first, followed by the segments' results |
| Providers.Digits | internal/storage/provider.go:97 | the decimal digits of n, with a single digit iff n < 10 |
| Providers.PaddedDigits | internal/storage/provider.go:97 | %06d of n < 10^6 is six digits whose value is n |
| Providers.FileNameScans | internal/storage/provider.go:71-80 | the name of file n < 10^6 scans back to n and the segment type |
| Providers.LargeFileNumberUnreadable | internal/storage/provider.go:71 | the name of a file numbered 10^6 or more fails to scan |
| Providers.FileNameScansUnbounded | internal/storage/provider.go:71-97 | with the width lifted, every file name scans back to its number |
| Providers.SegmentsListBack | internal/storage/provider.go:58-89 | listing the names of segments numbered below 10^6 gives those segments back, in order |
| Providers.FailureSticks | internal/storage/provider.go:71-75 | once one name fails to scan, the whole listing fails with that error |
| Providers.Provider.constructor | internal/storage/provider.go:34-43 | the counter starts at 0 |
| Providers.Provider.NextFileNum | internal/storage/provider.go:91-94 | the counter goes up by one and is returned |
| Providers.Provider.PrepareNewFile | internal/storage/provider.go:100-105 | a segment numbered one past the counter; file numbers strictly increase |
| Providers.Provider.ListFiles | internal/storage/provider.go:58-89 | the listing skips .DS_Store, parses every other name, and fails on the first name that does not scan |

## Left out

- I/O: reading directories, opening files with `O_EXCL`, and writing segment files are not modelled. Each `writeSegment` (db.go:233-250) is taken to succeed. Directory listings are given as sequences of names.
- Storage.IndexStorage.MaybeScheduleFlush: the `log.Fatal` on a flush error (db.go:141-144) is not modelled, since the flush cannot fail once I/O is left out.
- Storage.IndexStorage.FlushMemtables: on an empty queue the source slices with −1 and panics; the model returns Failure and changes nothing.
- `NewProvider`'s directory creation, `OpenFileForReading`, `Reader()` and the segment readers' loading of indices are not modelled. Loaded segments contribute only their metadata.
- Memtable.Get, hybrid `Search`/`Index`, the HNSW vector index and the embedding HTTP calls are not modelled. `IndexStorage.Get` takes each memtable's and segment's results as inputs.
- Memtables.Memtable: the two encoders' output lengths are parameters (`emptySize`, `newSize`), not computed from an encoding.
- Storage.IndexStorage.Get: segment results arrive in goroutine completion order; the model takes them in one given order.
- Storage.IndexStorage.Index: a panic inside the memtable's hybrid `Index` (memtable.go:38-40) is not modelled.
- Call sites pass `NewMemtable` and `NewHybridSearch` extra arguments their declarations lack; the model follows the declarations.
- InvertedIndexes.InvertedIndex.ConcurrentIndex: the goroutine fan-out over tokens is a sequential loop in some order. The source never closes `tokensCh`, so its workers never exit; that leak is not modelled.
- InvertedIndexes.InvertedIndex.Index: `analyzer.Analyze` is not modelled, and the document's tokens are an input. The same holds for the query tokens of `NextPhrase` (`strings.Fields`), `FindAllPhrases` and `RankProximity`.
- The `slog` logging calls are dropped.
- BulkIndex (index.go:72-89), `SkipList.Delete` and the `Iterator` are not modelled.
- InvertedIndexes.InvertedIndex.RankProximity: a negative k panics in the source at index.go:299 (`results[:k]`); the model returns Failure. The same holds for `Fusion.TopK`, `Fusion.MergeResult` and `Storage.IndexStorage.Get`.
- Positions: the source's float64 coordinates are exact integers here, including values above 2^53 that a float64 cannot hold. BOF and EOF are the ±Inf sentinels.
- Scores are `real`, so 1.1/(r+1) and 1/(v−u+1) are exact; float64 rounding is not modelled.
- Bytes.Trunc32: Go leaves the uint32 conversion of a float64 coordinate outside [0, 2^32) to the implementation. The model takes the value modulo 2^32 there, so the bytes it gives for such coordinates are unspecified in the source. `Codec.Fits` excludes them from the round trip.
- Codec.DecodeIndex: where the source's slicing runs past the end of a short or malformed image and panics, the model returns Failure.
- Codec.DecodeIndex: Decode is a function that gives each token's keys and towers as values (`DList`). It does not rebuild linked `SkipList` objects, so the linked structure of a decoded index is not proved.
- Fusion.SortByScore: `sort.Slice` is an unstable library sort. The model sorts by insertion, and contracts promise only a permutation in non-increasing score order, so the tie order is left open.
- Fusion.MergeResult: Go's map iteration order is a ghost parameter (`order`), any listing of the fused map.
- Fusion: `GetKey` is a key-function parameter.
- Providers.ScanName: `%s` stops at white space; names with spaces or other separators are read as the model's `WordRun` says, not checked against `fmt`'s full scanning rules.

## Findings

| source | as written | input that shows it | evidently intended | confidence | as-written member | corrected member |
|---|---|---|---|---|---|---|
| internal/index/index.go:66 | `ConcurrentIndex`, which `Index` calls, stores a fresh list per token, replacing that token's postings from earlier documents | index document 1 with the one token `name`, then document 3 with `name`: only (3,0) remains | each document's postings are added to the token's list, as the commented-out loop at index.go:97-107 does and index_test.go:14-23 expects | high (not executed) | Indexing.ReplacedLosesPostings | Indexing.MergedKeepsBoth |
| internal/index/index.go:251 | the second loop of `NextCover` takes a token's position as the new minimum only when its document is smaller; the same-document test compares `localMin.Offset == u.Offset` where the document is meant, so it never holds and a smaller offset in the same document is skipped | tokens a at (1,1) and b at (1,0), from BOF: returns [(1,1),(1,1)], which holds no b | `localMin.DocumentID == u.DocumentID && localMin.Offset < u.Offset`: the start is the least of the tokens' last postings at or before the end, so [u, v] holds every token | medium (not executed) | Queries.CoverAsWrittenMissesToken | Queries.CoverIsCover |
| internal/index/index.go:171-196 | `NextPhrase` with no terms takes v = u = the position and recurses on it forever | any query that splits into no fields, from any non-EOF position | an empty query has no occurrence: the EOF pair | high (not executed) | Queries.EmptyPhraseRestartsInPlace | InvertedIndexes.InvertedIndex.NextPhrase |
| internal/storage/provider.go:71 | `%06d` caps the scan at six digits, while file names are written with `%06d` as a minimum width | the segment file numbered 1000000, named `1000000.segment`, fails to scan, and `Open` fails | every file the provider writes can be listed back | medium (not executed) | Providers.LargeFileNumberUnreadable | Providers.FileNameScansUnbounded |

`InvertedIndex.Index`, `NextCover` and `RankProximity` keep the behaviour as
written, which is what the storage layer calls. `IndexAccumulating`,
`NextCoverFixed` and `RankProximityFixed` use the corrected definitions.
