# Perceptual-hash similarity search, modelled in Dafny

This project models the core of `search-similar-images.py` from the perceptual-hash scripts.
The ingest scripts store one row `(filename, H0..H7)` per distinct rotation hash of an image; this
script reads them. Each `Hi` is one byte of the 64-bit perceptual hash, most significant first. It
answers two queries:

* **single search**: the filenames whose stored hash is within Hamming distance `max_dist` of a probe hash;
* **full search**: one search around one hash of every stored image, keeping the results that found
  more than the image itself, then merged into disjoint similarity groups.

The search walks the eight hash columns as a byte trie. At level `d` it asks the table for the
distinct values of column `Hd` below the current prefix. It adds each value's differing bits to a
running distance with a clear-lowest-bit loop, and cuts every branch that goes over budget. At the
last level it looks up the filenames stored with the completed hash. `merge_sets` coalesces the
match sets into groups. It pops the sets one by one from the end of the list and absorbs each one
into every already placed group it shares a filename with, or places it as a new group when it
shares none. When some popped set touched two or more placed groups, those groups now overlap, so
after the pass it runs the whole merge again over the placed groups.

Modules (one file each):

* `HashCodec` (`hash_codec.dfy`): bytes as integers 0..255. Python's `^` and `&` on non-negative
  integers are written out bit by bit (`Xor`, `And`, proved against the bit-wise reading `Bit`),
  with `PopCount`. Also the bit-counting loop
  (`ByteDistance`), the Hamming distance of byte strings (`Distance`), and the hex split of the
  printed hash (`ParseHex`, `HashOfString`) with its inverse `ToHex`.
* `HashIndex` (`hash_index.dfy`): the table as a sequence of `Record(filename, hash)`. It holds the
  two SQL queries of the search as set comprehensions (`DistinctAtLevel`, `ExactLookup`) and the
  one-row-per-filename query of the full search (`Representatives`, with `RepresentativeRows` saying
  what any answer of that query satisfies).
* `SimilaritySearch` (`similarity_search.dfy`): the specification `Within` (every filename stored
  with a hash within the budget) and the trie walk `SearchSimilarImages`. The walk is a recursive
  method with a loop over the distinct bytes, whose body for one byte is `SearchBranch`. It is proved to return exactly
  `PrefixMatches(prefix)`, so from the empty prefix it returns exactly `Within`.
* `GroupMerger` (`group_merger.dfy`): `MergeSets` over a `seq<set<string>>`, and what a grouping
  is (`IsGrouping`). The lemmas show that a grouping is the connected-components partition, and
  that it is unique up to order and empty groups.
* `QueryWorkflows` (`query_workflows.dfy`): `SingleSearch` (the probe's hash string is parsed and
  searched) and `FullSearch` (search per representative, filter, merge).

## Model

| member | source | states |
|---|---|---|
| `HashCodec.Xor` | search-similar-images.py:42 | `hash_byte ^ ref_hash[level]` is zero exactly when the two bytes are equal, and never exceeds their sum |
| `HashCodec.XorBits` | search-similar-images.py:42 | bit i of the XOR mask is set exactly when bit i of the two operands differ, so it marks the differing bits |
| `HashCodec.And` | search-similar-images.py:45 | `x & y` is at most each operand |
| `HashCodec.AndBits` | search-similar-images.py:45 | bit i of `x & y` is set exactly when bit i is set in both operands |
| `HashCodec.ClearLowestBit` | search-similar-images.py:44-46 | `x & (x - 1)` on a non-zero value has exactly one set bit fewer, so the loop ends after as many rounds as there are differing bits |
| `HashCodec.ByteDistance` | search-similar-images.py:42-46 | the XOR-and-clear loop returns `cand_dist` plus exactly the number of bits in which the byte differs from the reference byte |
| `HashCodec.Distance` | search-similar-images.py:42-48 | the Hamming distance of two n-byte strings (the running `cand_dist`) is at most 8n, so at most 64 for two hashes |
| `HashCodec.DistanceSymmetric` | search-similar-images.py:42 | the distance of `a` to `b` equals that of `b` to `a` |
| `HashCodec.DistanceZero` | search-similar-images.py:48 | two byte strings are at distance 0 exactly when they are equal (both directions) |
| `HashCodec.DistancePrefix` | search-similar-images.py:48 | the distance of a prefix never exceeds the distance of the whole string: accumulated distance never decreases with depth |
| `HashCodec.DistanceExtend` | search-similar-images.py:42-49 | extending the candidate by one byte adds exactly that byte's differing bits to the distance |
| `HashCodec.ParseChunk` | search-similar-images.py:125 | the model of `int(chunk, 16)` on a one- or two-character chunk succeeds exactly when every character is a hex digit; the first character gives the high digit and the second the low digit |
| `HashCodec.ParseHex` | search-similar-images.py:125 | splitting in two-character chunks succeeds exactly when every character is a hex digit and yields ceil(n/2) values |
| `HashCodec.ParseHexChunks` | search-similar-images.py:125 | value i of the split is the base-16 value of chunk i, the first chunk giving the first value |
| `HashCodec.HashStringParses` | search-similar-images.py:124-125 | a 16-hex-digit string yields exactly 8 values, byte i being 16 times digit 2i plus digit 2i+1 |
| `HashCodec.HashOfString` | search-similar-images.py:124-125 | the tuple hash has 8 bytes in 0..255, most significant first, each read from its two characters |
| `HashCodec.ParseToHex` | search-similar-images.py:125 | reading back the two-digit-per-byte hex text of any byte string gives that byte string |
| `HashCodec.HashOfStringToHex` | search-similar-images.py:124-125 | printing a hash and splitting the text gives the same eight bytes |
| `HashIndex.DistinctAtLevel` | search-similar-images.py:29-36 | the values of column `H<level>` (level = prefix length) over the rows whose first `level` columns equal the prefix: every such row's value is listed, and every listed value comes from such a row |
| `HashIndex.ExactLookup` | search-similar-images.py:57-63 | the filenames of exactly the rows whose eight columns equal the completed hash |
| `HashIndex.FirstPerFilename` | search-similar-images.py:149-154 | keeps one row per filename: every kept row is a table row, no filename is kept twice, every filename not yet seen is kept |
| `HashIndex.Representatives` | search-similar-images.py:146-154 | the per-filename query returns table rows, one for each distinct filename of the table and no filename twice |
| `SimilaritySearch.Within` | search-similar-images.py:11-21 | the filenames stored with a hash within `max_dist` of the reference: stored filenames only, none for a negative budget, all of them for a budget of 64 or more |
| `SimilaritySearch.SearchSimilarImages` | search-similar-images.py:22-65 | from a candidate prefix of length `hash_level` < 8 whose distance is `cand_dist`, returns exactly the filenames of the rows below that prefix within `max_dist` (sound and complete) |
| `SimilaritySearch.SearchBranch` | search-similar-images.py:39-63 | for one byte of the next column, the loop body returns exactly the filenames within budget below the prefix extended by that byte: pruned when over budget, recursed below otherwise, looked up at the last level |
| `SimilaritySearch.PrefixMatchesEmpty` | search-similar-images.py:22 | called with the default empty candidate, the search's result is the whole specification: every filename within `max_dist` |
| `SimilaritySearch.BranchesCover` | search-similar-images.py:27-39 | enumerating only the distinct bytes present below the prefix loses no row |
| `SimilaritySearch.BranchesAdd` | search-similar-images.py:39-53 | a row lies below `prefix + [v]` exactly when it lies below `prefix` and has `v` at the next column |
| `SimilaritySearch.PrefixBound` | search-similar-images.py:48 | a row below a prefix is at least as far from the reference as the prefix |
| `SimilaritySearch.PruneSafe` | search-similar-images.py:48 | a branch whose distance already exceeds `max_dist` holds no row within budget, so dropping it is safe |
| `SimilaritySearch.LeafMatches` | search-similar-images.py:54-63 | at the last level the rows below the completed 8-byte candidate are exactly the exact-match lookup |
| `SimilaritySearch.SelfMatch` | search-similar-images.py:163-164 | for any budget of 0 or more, a stored row's own filename is in the result of a search around its hash |
| `SimilaritySearch.WithinZero` | search-similar-images.py:48-53 | with `max_dist = 0` the result is exactly the filenames stored with the reference hash |
| `SimilaritySearch.WithinMonotone` | search-similar-images.py:48 | a larger budget yields a superset |
| `SimilaritySearch.WithinSymmetric` | search-similar-images.py:42-48 | two rows within budget of each other each find the other |
| `SimilaritySearch.DistanceLastByte` | search-similar-images.py:42-48 | hashes equal on the first seven bytes are as far apart as their last bytes |
| `SimilaritySearch.ExampleDistances` | search-similar-images.py:42-46 | hashes ...01 and ...ff are at distance 1 and 8 from the zero hash |
| `SimilaritySearch.ThreeImageExample` | search-similar-images.py:22-65 | with rows a=0x00..00, b=0x00..01 and c=0x00..ff, budget 0 finds {a}, budget 1 finds {a, b}, budget 8 finds {a, b, c} |
| `GroupMerger.MergeSets` | search-similar-images.py:72-104 | the result groups are pairwise disjoint, their union is the union of the input sets, every input set lies in some group, and any two filenames of one group are connected by a chain of input sets |
| `GroupMerger.MergeStep` | search-similar-images.py:77-91 | absorbing the popped set into every placed group it meets, or appending it, keeps the placed groups covering, connecting and exhausting the popped sets |
| `GroupMerger.DisjointStep` | search-similar-images.py:82-96 | when the popped set meets at most one placed group, the placed groups stay pairwise disjoint (so no second pass is needed) |
| `GroupMerger.RegroupPreserves` | search-similar-images.py:100-104 | the second pass over the placed groups keeps cover and connection with respect to the original sets |
| `GroupMerger.LinkedLift` | search-similar-images.py:103-104 | a chain through groups that are each internally connected is a chain through the original sets |
| `GroupMerger.LinkedTrans` | search-similar-images.py:67 | connection through chains of sets is transitive |
| `GroupMerger.ChainInOneGroup` | search-similar-images.py:67 | along a chain of intersecting input sets every set stays inside the group of the first one |
| `GroupMerger.LinkedSetsShareGroup` | search-similar-images.py:67 | input sets joined by a chain of non-empty intersections all lie in one group |
| `GroupMerger.GroupIsComponent` | search-similar-images.py:67 | a filename is in the group of `x` exactly when it is connected to `x` by a chain of input sets (both directions) |
| `GroupMerger.GroupingUnique` | search-similar-images.py:67-104 | two groupings of the same sets have the same non-empty groups |
| `GroupMerger.GroupingReordered` | search-similar-images.py:76-78 | a grouping of a list is a grouping of every reordering of it |
| `GroupMerger.GroupingOrderIndependent` | search-similar-images.py:76-78 | reordering the input list does not change the non-empty groups |
| `GroupMerger.GroupingIdempotent` | search-similar-images.py:103-104 | merging groups that are already disjoint gives back the same non-empty groups |
| `GroupMerger.ChainExample` | search-similar-images.py:67-104 | match sets {a, b}, {b, c}, {d, e} group into exactly {a, b, c} and {d, e} |
| `QueryWorkflows.SingleSearch` | search-similar-images.py:122-127 | the probe's hash string is split into bytes and the matches are exactly the filenames within `max_dist` of that hash |
| `QueryWorkflows.ProbeFindsStoredImage` | search-similar-images.py:122-127 | probing with the printed hash of a stored row and budget 0 finds that row's filename |
| `QueryWorkflows.MatchSets` | search-similar-images.py:157-170 | `match_list`: at most one set per representative row, and only sets holding more than one filename |
| `QueryWorkflows.MatchSetsSound` | search-similar-images.py:157-170 | every collected set is the result, with more than one filename, of some representative's search |
| `QueryWorkflows.MatchSetsComplete` | search-similar-images.py:157-170 | every representative's result with more than one filename is collected |
| `QueryWorkflows.FullSearch` | search-similar-images.py:142-175 | for the rows the per-filename query returned, the groups are a grouping (disjoint, same union, covering, connected) of the match sets of size greater than 1 |
| `QueryWorkflows.NeighboursGrouped` | search-similar-images.py:163-175 | whichever row of each filename the query returned, a representative and another stored image within budget of it end up in the same group |
| `QueryWorkflows.GroupedHaveNeighbour` | search-similar-images.py:167-175 | every grouped filename was found by a search that also found some other filename |

## Left out

- Command-line parsing, the rejection of `--hamming-dist` above 16 (it calls `exit(-1)`), and the default database path (lines 188-213): CLI handling. The search needs no bound on `max_dist`; any integer works, and a negative one yields no match. So the comment at lines 163-164, that the result always includes the reference image, fails for a negative budget, which the command line accepts.
- The SQLite connection, cursors, `row_factory` and the SQL text built by string formatting: replaced by the abstract record sequence and the set comprehensions `DistinctAtLevel` and `ExactLookup`.
- `PIL.Image.open` and `imagehash.phash` (lines 123-124): foreign library calls. `SingleSearch` takes the printed hash string as a parameter, and requires it to be 16 hex digits, which is what that library prints for a 64-bit hash.
- `show_progress`, the `COUNT(DISTINCT filename)` used only for the progress bar, and all printing and `json.dumps` output: presentation on stdout/stderr.
- `QueryWorkflows.FullSearch`: on an empty `images` table the script does not return. The count at line 144 is 0 and the loop at line 159 never runs. The final `show_progress(0, 0)` at line 172 then divides by zero at line 113, and the script stops with `ZeroDivisionError` before `merge_sets` or any output. The model leaves the progress bar out, so `FullSearch` on an empty table returns no groups.
- `refresh-hash-database.py` and `update-hash-database.py` (ingest): directory listing, image decoding, table creation and inserts. They are not part of this model.
- `HashCodec.ParseChunk`, `HashCodec.ParseHex`: any character other than an ASCII hex digit (whitespace, a sign, non-ASCII digits) makes the model fail where Python's `int(x, 16)` may succeed (`int(' f', 16)` is 15, `int('-1', 16)` is -1). The printed hash never contains such characters.
- `GroupMerger.MergeSets`: `merge_sets` empties and refills the caller's list in place and updates the placed sets in place. The model takes the list as a value and returns the new list. The only caller uses the list only after the call, so aliasing is not observable.
- `HashIndex.Representatives`: `ROW_NUMBER() OVER (PARTITION BY filename)` without `ORDER BY` picks an arbitrary row per filename. This function picks the first row in table order. `FullSearch` and the full-search lemmas take the chosen rows as a parameter; the lemmas assume of them only `RepresentativeRows`, so they hold for every choice the database may make.
- The order in which sets and query results are iterated, and the order of the output groups: unspecified in the source. The model proves properties of membership only. Order-independence is stated for groupings (`GroupingOrderIndependent`), not for the exact sequence `MergeSets` returns.
