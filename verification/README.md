# Verification of the index, the search and the tree comparison

These Dafny modules model the in-memory index and fuzzy search that serve the
API reference (`api/static.files/stringdex-b5109af9.js` and
`api/static.files/search-cf4fc35e.js`), and the part of the comparison harness
that decides whether two captured element trees are the same target
(`render-repros/paired-corpus.py`). Most of that code consists of fast forms
that have to agree with simple ones: an automaton and three rolling rows with
an edit distance, a hash table with a map, compressed bitmaps with sets, 32-bit
halves with 64-bit words, packed tables with ranks. Each fast form is a class
or a method written the way the source is written, and is proved to compute
what a short specification says; the specifications have their own theorems.

`dafny verify dfyconfig.toml` checks everything.

| modules | what they cover |
|---|---|
| `Alignment`, `EditDistance` | optimal string alignment distance as the cost of a cheapest edit script, and the bounded dynamic program |
| `BitFields`, `Lev1Tables`, `Lev1`, `LevSearch` | the table-driven automaton for distance one, against the same distance, and the trie walk that uses it |
| `HashTable` | the Robin Hood table that grows |
| `Unify` | the backtracking matcher for flat function signatures |
| `Backlog`, `PrefixWalk` | the heap, and the best-first walk over the trie |
| `ByteBits`, `Containers`, `Roaring`, `DeltaForm` | bit counts, the three container kinds, union and intersection, decoding of the delta forms |
| `BranchTables`, `DataColumn` | tables that look up by rank, over the same bit counts and bitmaps |
| `SearchPattern`, `SipHash`, `Decoders` | substring search, the hash, the decoders of numbers, trees and columns |
| `QueryParser` | termination and cursor of the query parser |
| `GeometryIds`, `GeometryDom` | generated parts of ids, and the verdict on two trees |

The JavaScript files are minified, so a cited line is long: line 1 of
`stringdex` goes up to the children of a prefix trie, line 2 holds the rest,
from there on to the data columns, the tree decoder, the hash and the automata.

Results worth knowing when changing the code:

* A hash table may be full after an insertion; what the code needs, and keeps,
  is an empty slot before each one.
* If the index has some of the special type names of a group (slice and array,
  for instance) but not all, a match need not be a renaming of generics; and if
  the common name is there while a special one is missing, whether a signature
  matches can depend on the order of the query's elements.
* Signed numbers in the type data come back exactly if they are below 2^30 in
  absolute value, and the decoder returns exactly if the list it reads is closed.
* In the delta forms a zero difference repeats an entry. Reading and searching
  are exact all the same.
* A difference between ids is never excused alone: excused differences come in
  twos or more.

## Model

| member | source | states |
|---|---|---|
| `Alignment.CheapestScript` | api/static.files/search-cf4fc35e.js:1 | Some edit script between any two words has the distance as its cost, so the distance of the next rows is the minimum over all scripts of copies, substitutions, insertions, deletions and transpositions of neighbours |
| `Alignment.CellRecurrence` | api/static.files/search-cf4fc35e.js:1 | The recurrence by which the rows are filled follows from that minimum over scripts |
| `Alignment.OsaTrimFirst` | api/static.files/search-cf4fc35e.js:1 | Removing a common first character keeps the distance (through reversal of both words) |
| `Alignment.OsaTrimLast` | api/static.files/search-cf4fc35e.js:1 | Removing a common last character keeps the distance |
| `Alignment.OsaBetween` | api/static.files/search-cf4fc35e.js:1 | The distance lies between the difference of the lengths and the longer length, and is zero exactly on equal words |
| `EditDistance.State.Calculate` | api/static.files/search-cf4fc35e.js:1 | Whatever earlier calls left in the three shared rows, the result is the distance, or limit + 1 if the distance is above the limit |
| `EditDistance.State.FillRows` | api/static.files/search-cf4fc35e.js:1 | After all lines, the previous row holds the distances from the whole first word to every prefix of the second |
| `BitFields.FieldIsMaskIff` | api/static.files/stringdex-b5109af9.js:2 | Unpacking reads one digit of the whole table, for every table, exactly if no ten bits are read out of one word: the mask for ten bits has only six |
| `BitFields.UnpackIsDigit` | api/static.files/stringdex-b5109af9.js:2 | So it does at the widths used here, also across two words |
| `Lev1Tables.TableEntry` | api/static.files/stringdex-b5109af9.js:2 | Every entry of the packed tables, whether or not it straddles two 32-bit words, unpacks to the transition it stands for |
| `Lev1.ExpectedIsRight` | api/static.files/stringdex-b5109af9.js:2 | Those transitions are the ones the distance requires, in all six states and all four window widths near the end of the word |
| `Lev1.RunMeans` | api/static.files/stringdex-b5109af9.js:2 | After every input, state and offset say exactly which prefixes of the word are within distance one and whether a transposition is pending |
| `Lev1.AcceptsIffWithinOne` | api/static.files/stringdex-b5109af9.js:2 | For every word and input, the automaton accepts exactly if their distance is at most one |
| `Lev1.StoppedPrunesAll` | api/static.files/stringdex-b5109af9.js:2 | Where the automaton stops, every continuation is at distance two or more |
| `Lev1.VectorBits` | api/static.files/stringdex-b5109af9.js:2 | The match vector has the bit of each window position set exactly if the symbol stands there, and selects an entry inside the table |
| `LevSearch.ChildLive` | api/static.files/stringdex-b5109af9.js:1 | One step of the automaton on a byte decides whether anything below that child can still be near, and whether the child itself is |
| `LevSearch.ChildrenSmaller` | api/static.files/stringdex-b5109af9.js:1 | The places pushed for a place have fewer places below them than it has, so the walk ends |
| `LevSearch.FollowLeads` | api/static.files/stringdex-b5109af9.js:1 | Following a key through the tables of keys and children ends just where the bytes of edges and the branches that keep whole entries lead |
| `LevSearch.WalkLev1` | api/static.files/stringdex-b5109af9.js:1 | The stack walk reports exactly the places to which such bytes lead whose key is within distance one of the name, each key once, although it prunes |
| `HashTable.WalkIsPassed` | api/static.files/stringdex-b5109af9.js:1 | Slots probed on the way to an entry hold entries at least as far from their own preferred slots |
| `HashTable.StopIsSafe` | api/static.files/stringdex-b5109af9.js:1 | So the early break of a lookup never misses a key |
| `HashTable.StopMeansAbsent` | api/static.files/stringdex-b5109af9.js:1 | Where a lookup stops at an empty slot or a nearer entry, the key is in no slot |
| `HashTable.EnterOverOther` | api/static.files/stringdex-b5109af9.js:1 | Displacing a nearer entry keeps the order, and what the table holds together with the entry in hand |
| `HashTable.Map.Get` | api/static.files/stringdex-b5109af9.js:1 | The last value set for the key, or nothing |
| `HashTable.Map.SetNoGrow` | api/static.files/stringdex-b5109af9.js:1 | With an empty slot left, the table holds the new binding and otherwise what it held, even if it is full afterwards |
| `HashTable.Map.Set` | api/static.files/stringdex-b5109af9.js:1 | A table grows when it must; in every case the map it stands for is updated at the key and nowhere else, and its size counts the keys |
| `HashTable.Map.Grow` | api/static.files/stringdex-b5109af9.js:1 | The new arrays hold the same map in Robin Hood order, with a slot to spare |
| `HashTable.Map.Entries` | api/static.files/stringdex-b5109af9.js:1 | Every key of the map is listed once, with its value |
| `Unify.CheckTypeMgensForConflict` | api/static.files/search-cf4fc35e.js:1 | Accepts a renaming of generics exactly if it is one to one |
| `Unify.ExtendSolution` | api/static.files/search-cf4fc35e.js:1 | A solution after swapping out the chosen type gives one for the original positions |
| `Unify.ShrinkSolution` | api/static.files/search-cf4fc35e.js:1 | A solution gives, for the type it picks last, one for the swapped and shortened list |
| `Unify.UnifyFunctionTypes` | api/static.files/search-cf4fc35e.js:1 | Succeeds exactly if some injective choice of types, under one renaming, passes the callback; on success types are shown at their original positions, and every failed branch is undone |
| `Unify.SolvableIsSignatureMatches` | api/static.files/search-cf4fc35e.js:1 | Unifying inputs with unifying outputs as its callback amounts to two injective choices under one shared one-to-one renaming |
| `Unify.PathContainsIffHolds` | api/static.files/search-cf4fc35e.js:1 | The scan of a path succeeds exactly if ascending places in it hold the components wanted |
| `Unify.CandidateIffFits` | api/static.files/search-cf4fc35e.js:1 | A pair is a candidate exactly if the filter admits the kind, both are generics or one names the other and the path goes with it, and the renaming is not contradicted |
| `Unify.MatchesSignature` | api/static.files/search-cf4fc35e.js:1 | A flat function signature answers a query exactly if such choices exist |
| `Unify.SingleMatch` | api/static.files/search-cf4fc35e.js:1 | One type answers a query for one exactly if its kind is the one asked for or belongs to it, and both are generics or the name is right and the components wanted occur in its path in order |
| `Unify.MatchIsRenamingIff` | api/static.files/search-cf4fc35e.js:1 | That a signature matches exactly if its types can be picked under one injective renaming, positions aside, holds of an index exactly if in each of the three groups of special names (slices and arrays, tuples and units, functions) it has all of them or none |
| `Unify.TwinsOfOtherSign` | api/static.files/search-cf4fc35e.js:1 | For any index with one name of such a group and not another, a query and a signature of one type each that match although no renaming explains it |
| `Unify.OrderIrrelevantIff` | api/static.files/search-cf4fc35e.js:1 | That reordering the query never changes the answer holds of an index exactly if no common name it has stands for a special name it has not |
| `Unify.TakenGenericNeedsOrder` | api/static.files/search-cf4fc35e.js:1 | For any other index, a query of two elements that matches in one order and not in the other |
| `Unify.MissingSliceMakesOrderMatter` | api/static.files/search-cf4fc35e.js:1 | An index with arrays but without slices is one of those |
| `Backlog.RootIsShortest` | api/static.files/stringdex-b5109af9.js:1 | The root of the heap has the least key length |
| `Backlog.Queue.Push` | api/static.files/stringdex-b5109af9.js:1 | Sifting up restores the heap and adds just the entry |
| `Backlog.Queue.Pop` | api/static.files/stringdex-b5109af9.js:1 | Removing the root takes out a shortest entry; sifting down restores the heap |
| `PrefixWalk.NextLayer` | api/static.files/stringdex-b5109af9.js:1 | No branch is lost, each with a key no longer than its own; the ids loaded are distinct and have one visit each |
| `PrefixWalk.Drain` | api/static.files/stringdex-b5109af9.js:1 | Everything no longer than the layer is reported in order, and what stays is longer |
| `PrefixWalk.PrefixMatches` | api/static.files/stringdex-b5109af9.js:1 | Bitmaps come in order of non-decreasing key length; only non-empty ones of the trie, and every non-empty one reachable through prefix branches |
| `ByteBits.BitIsShifted` | api/static.files/stringdex-b5109af9.js:1 | Bit k of a byte is the last one after a shift by k |
| `ByteBits.BitCountIsCount` | api/static.files/stringdex-b5109af9.js:1 | The masks and the multiplication count the bits of every byte |
| `Containers.ValuesAscendAndHold` | api/static.files/stringdex-b5109af9.js:1 | Each of the three kinds of container reads strictly ascending, and exactly the values its own test admits |
| `Containers.Contains` | api/static.files/stringdex-b5109af9.js:1 | Binary search over runs or arrays, or the bit test, finds a value exactly if reading gives it |
| `Containers.Unite` | api/static.files/stringdex-b5109af9.js:1 | The union of two containers of any kinds, with its true size |
| `Containers.Intersect` | api/static.files/stringdex-b5109af9.js:1 | The intersection of two containers of any kinds, with its true size |
| `Containers.BitTotalIsLength` | api/static.files/stringdex-b5109af9.js:1 | Bit counts of the bytes add up to the number of values of a bit container |
| `Roaring.FindKey` | api/static.files/stringdex-b5109af9.js:1 | Binary search finds a key among ascending headers, and -1 exactly if it is absent |
| `Roaring.Bitmap.Union` | api/static.files/stringdex-b5109af9.js:1 | Set union for every mix of containers and for the shared bitmap of everything; keys ascend, no container is empty, headers are the true cardinalities |
| `Roaring.Bitmap.Intersection` | api/static.files/stringdex-b5109af9.js:1 | Set intersection with the same invariants; containers that become empty are dropped |
| `Roaring.Bitmap.Everything` | api/static.files/stringdex-b5109af9.js:1 | Filled on first use with one full run for each of the 65536 keys, the shared bitmap holds every number of 32 bits and is well formed |
| `Roaring.Bitmap.Contains` | api/static.files/stringdex-b5109af9.js:1 | Membership by the two searches agrees with the set |
| `Roaring.Bitmap.Entries` | api/static.files/stringdex-b5109af9.js:1 | Entries ascend strictly and are the members of the set |
| `Roaring.Bitmap.Cardinality` | api/static.files/stringdex-b5109af9.js:1 | The headers add up to the number of entries |
| `DeltaForm.Decoder.constructor` | api/static.files/stringdex-b5109af9.js:1 | Entries are the running sums of the differences, in order; written again, they are the bytes consumed, and any list written there reads back as it was |
| `DeltaForm.WrittenIsPrinted` | api/static.files/stringdex-b5109af9.js:1 | The bytes read are how the entries are written: a tag with their number, the first in four bytes, lowest first, and each difference in one or two |
| `DeltaForm.PrintedOnce` | api/static.files/stringdex-b5109af9.js:1 | No bytes are the writing of two lists |
| `DeltaForm.ReadsPrinted` | api/static.files/stringdex-b5109af9.js:1 | Every list of one to fifteen entries near enough to each other can be read where it is written, and comes back |
| `DeltaForm.Decoder.AddToArrayAt` | api/static.files/stringdex-b5109af9.js:1 | Room is made for one more entry, in a larger buffer if need be, without disturbing any entry |
| `DeltaForm.Growing.Grow` | api/static.files/stringdex-b5109af9.js:1 | Moving to a larger buffer keeps the entries |
| `DeltaForm.SumsNonDescending` | api/static.files/stringdex-b5109af9.js:1 | The running sums never descend, whatever the differences |
| `DeltaForm.Decoder.Contains` | api/static.files/stringdex-b5109af9.js:1 | So the two binary searches find exactly the entries, also where zero differences repeat them |
| `DeltaForm.ShapedIffPositive` | api/static.files/stringdex-b5109af9.js:1 | Arrays ascend strictly, as in every bitmap that union and intersection make, exactly if no difference is zero |
| `SearchPattern.NoOccurrence` | api/static.files/stringdex-b5109af9.js:1 | No skip jumps over an occurrence |
| `SearchPattern.Pattern.Matches` | api/static.files/stringdex-b5109af9.js:1 | True exactly if the needle occurs contiguously in the haystack, for all byte strings including the empty needle |
| `DataColumn.EveryItemHasItsRow` | api/static.files/stringdex-b5109af9.js:2 | Every stored item is the item of exactly one row that is not empty |
| `DataColumn.FoundBucketHasRow` | api/static.files/stringdex-b5109af9.js:2 | The bucket found for a row holds it, or the row lies beyond all items |
| `DataColumn.Column.constructor` | api/static.files/stringdex-b5109af9.js:2 | Buckets follow one another; each spans its items and the empty rows before and between them |
| `DataColumn.Column.PutBackEmpties` | api/static.files/stringdex-b5109af9.js:2 | Re-inserting the empty rows by splicing runs of items gives the bucket as it reads |
| `DataColumn.Column.AtAsyncFetch` | api/static.files/stringdex-b5109af9.js:2 | A bucket is filled once, also if another call filled it in the meantime, and then read |
| `DataColumn.Column.At` | api/static.files/stringdex-b5109af9.js:2 | A row in the empty set reads as empty; any other row reads as the item numbered by the rows below it that are not empty, or as nothing |
| `BranchTables.RankIsCount` | api/static.files/stringdex-b5109af9.js:1 | Masked bit count plus the counts of the bytes before is the number of set bits below a place |
| `BranchTables.GetIndex` | api/static.files/stringdex-b5109af9.js:1 | The index found has the key looked for, and -1 is returned exactly for absent keys, in a sorted array and in a bitmap over an alphabet alike |
| `BranchTables.GetKeys` | api/static.files/stringdex-b5109af9.js:1 | The keys listed are those whose bits are set, in order |
| `BranchTables.SamePlace` | api/static.files/stringdex-b5109af9.js:1 | Two tables with the same keys have each key at the same index, whatever their kind |
| `BranchTables.MergeSorted` | api/static.files/stringdex-b5109af9.js:2 | Merging two disjoint tables into an array pairs every key with its own node id |
| `BranchTables.MergeBitmap` | api/static.files/stringdex-b5109af9.js:2 | So does merging them into the 256-bit bitmap |
| `BranchTables.MergeBranches` | api/static.files/stringdex-b5109af9.js:2 | All branches of a node: those of both tables, with their ids, and no others |
| `SipHash.GlueSum` | api/static.files/stringdex-b5109af9.js:2 | Adding halves with the explicit carry is addition modulo 2^64 |
| `SipHash.HalfRoundJoins` | api/static.files/stringdex-b5109af9.js:2 | A round on 32-bit halves is SipRound on 64-bit words (section 2 of the SipHash paper) |
| `SipHash.LastHalvesJoin` | api/static.files/stringdex-b5109af9.js:2 | The last block is the remaining bytes, zeros, and the length byte on top |
| `SipHash.HalfHashJoins` | api/static.files/stringdex-b5109af9.js:2 | The whole computation on halves is SipHash-1-3, for every key and input |
| `SipHash.Sip.Compress` | api/static.files/stringdex-b5109af9.js:2 | The assignments to eight words carry out one round on halves |
| `SipHash.SiphashOfBytes` | api/static.files/stringdex-b5109af9.js:2 | The eight bytes written, read most significant first, are the SipHash-1-3 of the input; later bytes are untouched |
| `Decoders.ReadPrinted` | api/static.files/stringdex-b5109af9.js:2 | Reading a number printed in four-bit digits stops just past it, with its value as a signed 32-bit integer |
| `Decoders.SignedRoundTrip` | api/static.files/search-cf4fc35e.js:1 | A signed number comes back exactly if its absolute value is below 2^30 |
| `Decoders.TreeRoundTrip` | api/static.files/search-cf4fc35e.js:1 | A nested list of numbers comes back exactly if all of them are that small, and decoding always stops just past it |
| `Decoders.RememberIsRecent` | api/static.files/search-cf4fc35e.js:1 | The queue holds the last sixteen items written in full, the last one first |
| `Decoders.NextRoundTrip` | api/static.files/search-cf4fc35e.js:1 | Written in full, or as a reference k that stands for the k-th item back from the last one written in full, the next item reads as meant; a bare zero does not count |
| `Decoders.ItemsRoundTrip` | api/static.files/search-cf4fc35e.js:1 | A whole text of trees and references, read item by item, gives back the items meant by counting back in what was written in full, and reading stops just past it |
| `Decoders.NothingDecodedIsDivergence` | api/static.files/search-cf4fc35e.js:1 | Nothing is decoded exactly where the recursion and the loop of the source end in no number of steps |
| `Decoders.PastTheEnd` | api/static.files/search-cf4fc35e.js:1 | Past the end of the text a turn of the loop reads a zero and is past the end again, in any number of turns |
| `Decoders.DivergesIffUnclosed` | api/static.files/search-cf4fc35e.js:1 | The source does not return exactly if the text opens a list that is not closed: a pass that counts braces and skips numbers never comes back to depth zero |
| `Decoders.OpenBraceDiverges` | api/static.files/search-cf4fc35e.js:1 | An opening brace alone is such a text |
| `Decoders.VlqHexDecoder.Decode` | api/static.files/search-cf4fc35e.js:1 | The tree at the offset, the offset just past it, and the count of numbers read; past the end of the text, a zero, and the offset one further on |
| `Decoders.VlqHexDecoder.DecodeList` | api/static.files/search-cf4fc35e.js:1 | The elements up to the closing brace, or nothing where the list is not closed |
| `Decoders.VlqHexDecoder.Next` | api/static.files/search-cf4fc35e.js:1 | The next item, the text after it and the queue of recent items |
| `Decoders.ColumnRoundTrip` | api/static.files/stringdex-b5109af9.js:2 | Whatever references its printer chose, each counting back from the last item written in full, a column loads as the items meant, in order, exactly if none of those written in full has 2^31 bytes or more |
| `Decoders.LoadedInTime` | api/static.files/stringdex-b5109af9.js:2 | Unless a length reads as negative, the loop ends in at most as many turns as there are bytes |
| `Decoders.NegativeLengthDiverges` | api/static.files/stringdex-b5109af9.js:2 | Eight bytes that read as the length -8 bring the index back to the start: the loop never ends |
| `Decoders.LoadColumnFromBytes` | api/static.files/stringdex-b5109af9.js:2 | The loop over the bytes, negative lengths and indexes included, loads just those items, turn by turn; a printed column loads as the items meant |
| `QueryParser.Parser.IdentFollows` | api/static.files/search-cf4fc35e.js:1 | The look past an exclamation mark leaves the cursor where it was |
| `QueryParser.Parser.GetIdentEndPosition` | api/static.files/search-cf4fc35e.js:1 | Ends on every input; the end lies between the start and the cursor |
| `QueryParser.Parser.GetNextElem` | api/static.files/search-cf4fc35e.js:1 | At most one element is added, and none without moving the cursor forward |
| `QueryParser.Parser.GetItemsBefore` | api/static.files/search-cf4fc35e.js:1 | Ends; if it does not throw, the closing character has just been passed, and type filter and binding are what they were |
| `QueryParser.Parser.GetFilteredNextElem` | api/static.files/search-cf4fc35e.js:1 | The cursor does not move back, and the number of elements does not change unless it moves forward |
| `QueryParser.Parser.ParseInput` | api/static.files/search-cf4fc35e.js:1 | Ends on every string, by throwing or by accepting; an accepted query has been read to its end |
| `GeometryIds.SplitIsUnique` | render-repros/paired-corpus.py:1717-1784 | Two ids split in at most one way into common prefix, differing salts and a suffix that is empty or the longest starting at a separator |
| `GeometryIds.SplitGeneratedIdVariance` | render-repros/paired-corpus.py:1717-1784 | The result is that split, and there is none exactly if nothing is returned |
| `GeometryIds.SplitSwaps` | render-repros/paired-corpus.py:1717-1784 | Exchanging the ids exchanges the salts and nothing else |
| `GeometryIds.FingerprintsDifferIff` | render-repros/paired-corpus.py:1759-1759 | Fingerprints differ exactly if prefix and suffix are not the same, and the marker does not stand in one id where it would be put in the other |
| `GeometryIds.FlagIsVolatile` | render-repros/paired-corpus.py:1825-1832 | The test on the collected sets says whether the same pair of salts recurs with something else around it |
| `GeometryIds.CollectMismatches` | render-repros/paired-corpus.py:1797-1819 | The first pass lists the positions that differ, in order, each with its split, and collects under each pair of salts the fingerprints of the candidates |
| `GeometryIds.FlagMismatches` | render-repros/paired-corpus.py:1825-1836 | The second pass sets each flag by that rule, changes nothing else, and counts the flags set |
| `GeometryIds.CompareGeometryDomIds` | render-repros/paired-corpus.py:1787-1843 | Mismatches are the positions that differ; each is normalized exactly by that rule; the two counts add up; comparable exactly if every difference is excused |
| `GeometryIds.ExcusedIffSaltsRecur` | render-repros/paired-corpus.py:1787-1843 | Where no id has the character that starts the marker, a difference is excused exactly if its salts look generated and another position that looks generated has the same salts with another prefix or suffix |
| `GeometryIds.ComparedOnce` | render-repros/paired-corpus.py:1787-1843 | Two lists of ids have just one comparison: mismatches, flags, counts and verdict are determined |
| `GeometryIds.ComparedSymmetric` | render-repros/paired-corpus.py:1787-1843 | With the engines exchanged, counts, verdict and number of mismatches are the same |
| `GeometryIds.Rules.VolatileCountNotOne` | render-repros/paired-corpus.py:1821-1836 | The number of excused differences is never one |
| `GeometryIds.SwappedEngines` | render-repros/paired-corpus.py:1787-1843 | Verdict and counts do not depend on which engine comes first |
| `GeometryDom.WordsAreWritten` | render-repros/paired-corpus.py:1681-1684 | Splitting gives those tokens, in order, with which the class name is written, with blanks of any kind and length between and around them, and no others |
| `GeometryDom.ClassOrderIrrelevant` | render-repros/paired-corpus.py:1676-1708 | Trees whose class names are written with the same tokens, in any order, any number of times and with any blanks, have one canonical form |
| `GeometryDom.SameTargetIff` | render-repros/paired-corpus.py:1846-1880 | Two captured trees are the same target exactly if counts, truncation and, node by node, parent, tag, child count and class tokens agree, and the ids differ only by generated counters |
| `GeometryDom.VerdictIgnoresClassOrder` | render-repros/paired-corpus.py:1861-1905 | Writing the class names of either tree so changes nothing in the verdict |
| `GeometryDom.CompareGeometryDomStructures` | render-repros/paired-corpus.py:1861-1905 | Reason and classification follow from whether both trees are there, are the same target, and are complete; the ids are compared exactly if everything else is equal |
| `GeometryDom.VerdictSymmetric` | render-repros/paired-corpus.py:1861-1905 | The verdicts of two calls with the engines exchanged agree in availability, topology, reasons, classification and comparability, and their comparisons of ids in both counts |

## Left out

- QueryParser.Parser.ParseInput: says nothing about which elements a query parses to, nor about how many of them may stand beside a quoted one. The element records are built, but paths, trimming and the test for malformed paths are parameters; messages of thrown errors, the final check of type filters and the removal of surrounding blanks are not modelled.
- QueryParser.Parser.GetIdentEndPosition: identifier characters are a parameter, one per character; pairs of surrogates are not modelled.
- LevSearch.WalkLev1: the branch for names of three to five bytes. Shorter names are looked up exactly; longer ones use the tables for two errors (45 states), where the argument is the same and the rest is table bulk. Loading of subtrees is not modelled. The keys in the result are ghost, since the source reports places only.
- PrefixWalk.PrefixMatches: subtrees load by a function of their id instead of promises, and whether one is loaded already is left open. The largest number the source starts its minimum from is replaced by the first length.
- Unify.UnifyFunctionTypes: flat signatures only. Unboxing, nested generics, bindings and where-clauses are not modelled, and a missing renaming counts as the empty one.
- HashTable.Map.Set: a key is one element of five bytes instead of five bytes of a flat buffer, and keys are looked up as such; values are never undefined, and capacities stay below 2^31.
- Roaring.Bitmap.Union: headers and array entries are 16-bit numbers instead of pairs of bytes, so carrying a pair byte by byte is not modelled. The shared bitmap of everything is a parameter that `Roaring.Bitmap.Everything` has filled. Keys from 2^15 on, where JavaScript's shifts turn negative, are treated as positive numbers.
- Roaring.Bitmap.Intersection: the same holds.
- Roaring.Bitmap.Contains: numbers from 2^31 on are treated as positive; in the source their key turns negative and is not found, even in the bitmap of everything.
- Roaring.Bitmap.Entries: entries of keys from 2^15 on are treated as positive; in the source they turn negative.
- Roaring.Bitmap.Everything: holds all numbers of 32 bits in that sense.
- DeltaForm.Decoder.constructor: a container's buffer is a sequence of fixed length held in a field, so two containers sharing one buffer are not modelled. Entries are below 2^31, as above. The header array has one header per entry from the start and never grows here, so the branch that would grow it is not modelled.
- DataColumn.Column.At: what loading a bucket gives is a constant of the column with as many items as the bucket counts; promises are not modelled.
- EditDistance.State.Calculate: the three rows are sequences held in fields; the source's arrays are three different objects throughout, which is not part of the model.
- Containers.Unite: containers are values rather than objects with buffers.
- BranchTables.GetIndex: a node id is one element. The alphabets are any ascending list of characters; which flag byte selects which alphabet is not modelled.
- SipHash.Sip.Compress: the eight local variables of the source are the fields of an object, and each 32-bit operation is a function.
- Decoders.LoadColumnFromBytes: the loop is given a number of turns, since the source may loop for ever; where it does, the result is nothing for every number.
- GeometryIds.CompareGeometryDomIds: the search for a framework's name and the digit test are parameters. The name found and the verdict on the salts are kept with the mismatch instead of the split.
- GeometryDom.CompareGeometryDomStructures: class tokens are a set, where the source keeps a sorted list without duplicates; blanks are a parameter.
- Serialized bitmaps with run flags and offsets, and the forms for single runs: decoding of a file format, with no claim beyond reading fields.
- `RoaringBitmap.remove`, and `substringMatches`, which depends on it.
- `removeIdxListAsc`.
- Decoding of whole trees from their binary form, and the cache of nodes: bookkeeping around the branch tables.
- Result ranking, HTML output, settings and page scripts: user interface and I/O.
- Browser control, screenshots, image metrics and acceptance stages of the harness: foreign calls.
