# Code-clone detector: tokenizer and HBase write buffer

This project models two pieces of the clone detector's core in Dafny.

- **The Java front end's tokenizer** (`JavaTokenizer`). It cuts a Java source
  file into function fragments. A cut falls at the start offset of every match
  of a splitter regular expression. Each non-empty fragment becomes a
  `Function` tagged with its base line: the number of newline characters in the
  file before the fragment. `countOccurrences` counts those newlines.
- **The mappers' HBase write buffer** (`HTableWriteBuffer`). It collects puts
  in a list. When the list reaches `MAX_SIZE` (10000) puts, it sends them to the
  table as one batch and empties the list. `close` sends whatever is pending.

`java_tokenizer.dfy` (module `JavaFrontend`) holds the tokenizer.
- `Tokenize` and `CountOccurrences` are methods with the source's loops.
- Each is proved equal to a specification function, `Tokenized` and
  `Occurrences`.
- Lemmas about those functions state the properties: the fragments reproduce
  the file, none is empty, base lines count the newlines before each fragment
  and never decrease, and cuts fall exactly at the match starts.

`htable_write_buffer.dfy` (module `Mappers`) holds the buffer.
- `HTableWriteBuffer` is a class. Its `puts` field is the pending list.
- A ghost field `batches` logs every batch handed to `HTableUtil.bucketRsBatch`.
- `Valid()` is the invariant the buffer keeps.
- `WriteAll` and `WriteAllAndClose` are client methods. Their contracts state
  what a run of writes leaves behind: every put in order, in full batches.

The regular-expression matcher is a parameter of `Tokenize`. It is given as the
sequence `starts` of the offsets where the successive matches begin.

- The precondition `MatchStarts` asks only that those offsets are
  non-decreasing and at most the file length.
- That is exactly what the `substring` calls at
  `src/ch/unibe/scg/cc/javaFrontend/JavaTokenizer.java:41,53` need not to throw.
- The matcher's actual output is strictly increasing and below the file length.
  That is a special case of this precondition, so the lemmas cover it.

## Model

| member | source | states |
|---|---|---|
| JavaFrontend.CountOccurrences | src/ch/unibe/scg/cc/javaFrontend/JavaTokenizer.java:71-80 | the count the loop returns is the number of positions of the haystack holding the needle (`Occurrences`), so it is 0 for an empty string and at most the string's length |
| JavaFrontend.Occurrences | src/ch/unibe/scg/cc/javaFrontend/JavaTokenizer.java:71-80 | the count of a character in a string is at most the string's length, and 0 for the empty string |
| JavaFrontend.OccurrencesIsIndexCount | src/ch/unibe/scg/cc/javaFrontend/JavaTokenizer.java:71-80 | the count equals the size of the set of indices `i` with `h[i] == c` |
| JavaFrontend.OccurrencesAppend | src/ch/unibe/scg/cc/javaFrontend/JavaTokenizer.java:40-52 | counting distributes over concatenation, which is why adding each fragment's newline count keeps `currentLineNumber` equal to the newlines before `lastStart` |
| JavaFrontend.SplitAt | src/ch/unibe/scg/cc/javaFrontend/JavaTokenizer.java:41-51 | the newlines before `to` are those before `from` plus those in `file[from..to]` |
| JavaFrontend.MakeFunction | src/ch/unibe/scg/cc/javaFrontend/JavaTokenizer.java:64-69 | the built fragment carries exactly the given base line and contents |
| JavaFrontend.MakeFunctionIgnoresFileName | src/ch/unibe/scg/cc/javaFrontend/JavaTokenizer.java:64-69 | the file name has no effect on the fragment built |
| JavaFrontend.Tokenize | src/ch/unibe/scg/cc/javaFrontend/JavaTokenizer.java:32-62 | for any in-range, ordered match starts, the loop returns exactly `Tokenized(file, starts)`: one fragment per non-empty stretch between successive starts, then the tail, each tagged with the line it starts on |
| JavaFrontend.PiecesBeforeConcat | src/ch/unibe/scg/cc/javaFrontend/JavaTokenizer.java:40-52 | after `i` matches, the fragments emitted so far join to exactly the file up to `lastStart` |
| JavaFrontend.PiecesBeforeNonEmpty | src/ch/unibe/scg/cc/javaFrontend/JavaTokenizer.java:44-48 | after `i` matches at most `i` fragments have been emitted, none of them empty |
| JavaFrontend.PiecesBeforeBaseLines | src/ch/unibe/scg/cc/javaFrontend/JavaTokenizer.java:42-51 | every fragment emitted inside the loop has as base line the number of newlines in the text before it |
| JavaFrontend.PiecesBeforeCut | src/ch/unibe/scg/cc/javaFrontend/JavaTokenizer.java:40-52 | after `i` matches, the offsets where an emitted fragment ends are exactly 0 and the first `i` match starts |
| JavaFrontend.AppendPieceCut | src/ch/unibe/scg/cc/javaFrontend/JavaTokenizer.java:44-48 | appending the fragment `file[from..to]`, or nothing when it is empty, adds exactly `to` to the cut offsets |
| JavaFrontend.TokenizeCoversFile | src/ch/unibe/scg/cc/javaFrontend/JavaTokenizer.java:40-61 | the contents of the returned fragments, joined in order, are exactly the input file |
| JavaFrontend.TokenizeNoEmptyFunction | src/ch/unibe/scg/cc/javaFrontend/JavaTokenizer.java:44-60 | no returned fragment has empty contents |
| JavaFrontend.TokenizeCount | src/ch/unibe/scg/cc/javaFrontend/JavaTokenizer.java:40-61 | at most one fragment more than there are matches is returned |
| JavaFrontend.TokenizedBaseLines | src/ch/unibe/scg/cc/javaFrontend/JavaTokenizer.java:33-58 | every returned fragment's base line is the number of newlines in the fragments before it |
| JavaFrontend.TokenizeBaseLines | src/ch/unibe/scg/cc/javaFrontend/JavaTokenizer.java:33-58 | the k-th fragment is the file slice starting at offset `|Concat(fs[..k])|`, and its base line is the number of newlines in the file before that offset |
| JavaFrontend.TokenizeBaseLinesMonotone | src/ch/unibe/scg/cc/javaFrontend/JavaTokenizer.java:40-52 | base lines never decrease along the returned list |
| JavaFrontend.TokenizeCutsAtMatches | src/ch/unibe/scg/cc/javaFrontend/JavaTokenizer.java:40-53 | an offset is a fragment boundary if and only if it is 0, the file length or a match start: fragments appear in file order and are cut exactly at the matches |
| JavaFrontend.TokenizeNoMatches | src/ch/unibe/scg/cc/javaFrontend/JavaTokenizer.java:53-61 | with no matches, an empty file gives no fragment and a non-empty one gives exactly one fragment, with base line 0, holding the whole file |
| Mappers.HTableWriteBuffer.constructor | src/ch/unibe/scg/cc/mappers/HTableWriteBuffer.java:28-31 | a new buffer keeps its table, has batch size MAX_SIZE = 10000, nothing pending and nothing sent |
| Mappers.HTableWriteBuffer.Invariant | src/ch/unibe/scg/cc/mappers/HTableWriteBuffer.java:48-50 | the checked bound (at most maxSize pending) holds in every valid state |
| Mappers.HTableWriteBuffer.Write | src/ch/unibe/scg/cc/mappers/HTableWriteBuffer.java:33-41 | the put goes to the end of the pending list; below maxSize nothing is sent; on reaching maxSize exactly one batch of exactly maxSize puts, the old pending list plus the put, is sent and the list is emptied; all puts sent then pending are the old ones plus the put, and the checked invariant holds afterwards |
| Mappers.HTableWriteBuffer.WriteRemainingPuts | src/ch/unibe/scg/cc/mappers/HTableWriteBuffer.java:43-46 | from any state the Java `invariant()` admits, including the MAX_SIZE puts a failed flush leaves, exactly the pending list, possibly empty, is sent as one batch; the pending list itself is unchanged; the invariant holds afterwards, and so does `Valid()` if it held before |
| Mappers.HTableWriteBuffer.Close | src/ch/unibe/scg/cc/mappers/HTableWriteBuffer.java:56-60 | as `WriteRemainingPuts`, from any state the Java `invariant()` admits: one batch holding the pending puts, which stay pending |
| Mappers.FlattenUniformLength | src/ch/unibe/scg/cc/mappers/HTableWriteBuffer.java:36-37 | a log of batches of `m` puts each holds `m` times the number of batches |
| Mappers.FlattenAppend | src/ch/unibe/scg/cc/mappers/HTableWriteBuffer.java:37-44 | the puts of two logs joined are the puts of the first followed by those of the second |
| Mappers.WriteAll | src/ch/unibe/scg/cc/mappers/HTableWriteBuffer.java:33-41 | writing a sequence of puts keeps the buffer valid, keeps the earlier batches, sends only full batches of maxSize puts, preserves order (sent then pending is old sent then pending then the new puts), and new batches times maxSize plus what is pending is what was pending plus what was written |
| Mappers.FullBatchesCount | src/ch/unibe/scg/cc/mappers/HTableWriteBuffer.java:36-38 | if a log grew only by full batches while the order of puts was kept, the new batches times the batch size plus the pending count is the number of puts pending before plus written |
| Mappers.WriteAllAndClose | src/ch/unibe/scg/cc/mappers/HTableWriteBuffer.java:28-60 | writing any sequence of puts to a fresh buffer and closing it sends every put exactly once and in order; every batch but the last holds MAX_SIZE puts; the last batch is the pending remainder, fewer than MAX_SIZE |

## Left out

- The splitter regular expression and its dk.brics automaton
  (`src/ch/unibe/scg/cc/javaFrontend/JavaTokenizer.java:19,24-29,38,40`) are not
  modelled. `Tokenize` takes the matches' start offsets as a parameter. Which
  offsets the expression actually matches is therefore not captured.
- Guice injection is not modelled: the `Provider<Function>`
  (`src/ch/unibe/scg/cc/javaFrontend/JavaTokenizer.java:21-22,65`), the
  `@Inject`/`@Assisted` constructor and the `BufferFactory` interface
  (`src/ch/unibe/scg/cc/mappers/HTableWriteBuffer.java:27,52-54`). A
  `Function` is a value with only the two fields the tokenizer sets. The
  activerecord `Function` class's other fields are not part of this model.
- MakeFunction: the `fileName` argument is accepted and dropped, as in the
  source. The provider could in principle return a shared object; that aliasing
  is not modelled.
- `HTableUtil.bucketRsBatch` and all HBase I/O are not modelled, and neither are
  the `IOException`s they may throw. Each call becomes an append, by value, of
  the pending list to the ghost log `batches`. The source passes the list
  itself and then clears it. Whether the HBase client keeps a reference to the
  list is not modelled.
- `assert put != null` is enforced by the type: a `Put` value in Dafny is never
  null.
- Mappers.HTableWriteBuffer.Write: it requires `Valid()`, fewer than MAX_SIZE
  pending, which is stronger than the at-most-MAX_SIZE bound the source checks.
  With exactly MAX_SIZE pending, a write would bypass the exact-size test and
  never send again. Every buffer reachable through the constructor, `write` and
  `close` satisfies `Valid()` as long as no `bucketRsBatch` call throws. If
  the call at `src/ch/unibe/scg/cc/mappers/HTableWriteBuffer.java:37` throws,
  MAX_SIZE puts stay pending. A further write from that state is not covered.
  `WriteRemainingPuts` and `Close` do cover it: they require only the Java
  `invariant()` and send those puts.
- Positions in a file are indices into its sequence of Unicode characters.
  Java's `substring` and `charAt`
  (`src/ch/unibe/scg/cc/javaFrontend/JavaTokenizer.java:41,53,74-75`) count
  UTF-16 code units instead. The two differ for a file with characters outside
  the Basic Multilingual Plane. A Dafny `string` cannot hold a lone surrogate,
  so the model does not capture those offsets, and `starts` counts characters.
- `MAX_SIZE` is kept as the field `maxSize`. The constructor sets it to 10000.
  The contracts are stated over that field. Java's 32-bit `int` is not
  modelled: every count here is bounded by a list or string length.
- The rest of the repository is not part of this model. This covers the
  Hadoop/Guice plumbing (`MRMain`, `GuiceMapper`), the injection bindings
  (`CCModule`, `Annotations`), HBase administration (`HTableProvider`,
  `TableAdmin`), `PipelineRunner`, the `LookupTable` interface, the
  normalizer, the codecs, the clone registry and the tests.
