# Verified models of the CSE333 search engine and its companions

This project models the core of a systems-programming course repository in Dafny
and proves what that code is for.

The main line is the search engine stack. Each layer is an imperative model of one
C file, proved against a simple mathematical view, and used by the next layer:

| layer | file | mathematical view |
|---|---|---|
| hw1/LinkedList.c | LinkedList.dfy, SortSpec.dfy | a doubly linked list and its cursor are a sequence and an index; the sort is the unique stable sort |
| hw1/HashTable.c | ChainTable.dfy, HashTable.dfy, TableLaws.dfy, SurvivorLaws.dfy, ReachableTables.dfy, TableIteration.dfy, Fnv.dfy | a self-resizing table is a finite map, on keys that survive `hasKey` |
| hw2/FileParser.c | WordSpec.dfy, LetterLaws.dfy, FileParser.dfy | the word table is the map from words to the ascending offsets of their letter runs |
| hw2/DocTable.c | DocTable.dfy | a sequence of names; a document's id is its position |
| hw2/MemIndex.c | SearchSpec.dfy, CorpusSpec.dfy, MemIndex.dfy | the inverted index is a map word -> document -> offsets, and a search is a scan of the corpus |
| hw2/CrawlFileTree.c | FileTree.dfy, CrawlSpec.dfy, CrawlFileTree.dfy, AbortLaws.dfy | the corpus is the files of a directory tree in sorted order |
| hw2/searchshell.c | SearchShell.dfy | every answer equals the answer of a naive scan |

`SearchShell.Session` is the top result: for every directory tree and every list of
queries, crawling the tree and then answering the queries prints, for each query,
exactly the documents that contain every query word, each once, highest rank
first, with a rank that is the number of occurrences summed over the query. Here a
query word counts as the word that its lookup leads to, which is the word itself
unless its hash is mistaken for that of another (`MeantIff`, `MeantAsAsked`).

Independent of it are

* BracketSpec.dfy, AngleSpec.dfy, BracketMatching.dfy, BracketTheorem.dfy,
  AngleTheorem.dfy: where the forward and the backward bracket matcher of
  bin/cpplint.py stop is the end of one bracket group, and they undo each other exactly
  from brackets other than angle brackets;
* Preprocessor.dfy: the stack handling of `#if`/`#else`/`#endif` in bin/cpplint.py;
* IndexFile.dfy, StoredTables.dfy, TableReaders.dfy: the readers of hw3 over a byte image;
* List333.dfy: the copying assignment of ex07/List333.cc under aliasing;
* VowelSpec.dfy, VowelMachines.dfy: the vowel recognisers of ex05.

Files named `...Spec` or `...Laws` say what is meant, and the others hold the
program. BracketSpec.dfy also holds the stack machine that the bracket matchers
are once a round, square or curly bracket is pending. What a definition that both
sides use computes, such as the lower case of a byte, the pathname of an entry or the
order of the bytes in a field, is stated once more by character codes or by an inverse
(`OffsetsSpell`, `PathnameLeads`, `FieldBytes` and so on).

## How the C code is read

* A C struct that is updated in place is a class; its ghost fields `Contents`,
  `Repr` and so on say what it represents. A freed node leaves `Repr`, so that no
  later operation can touch it. Every `Verify333` is an assertion or a
  precondition that the callers establish.
* A payload of the search's result list is a value stored in its node, and writing
  through the payload pointer is `LLIterator.Update`.
* The hash of words and names is a parameter `hash`, and what is needed of it is
  explicit: `GoodOn` for the words of the corpus and `NamesApart` for the names of its
  documents; nothing is asked of query words. `GoodOn` is not a choice of this model:
  `AbortLaws.CrawlPassesIff` shows that the program passes its own checks exactly if
  `GoodOn` holds and no two files that get one number share a word. `NamesApart` asks
  a little more: that no two files get one number. The FNV hash itself is modelled
  apart, in Fnv.dfy, with explicit wrap-around at 64 bits.
* `int` counts are unbounded, except where width matters: 64-bit keys, the `int`
  parameter of `hasKey`, C `char`s, and the integer fields of the index files.
* A corpus is assumed to have fewer than 2^31 documents, since document ids are
  keys and have to survive `hasKey`.

## Where the code does not do what it appears to promise

* `hasKey` (hw1/HashTable.c:467) takes its 64-bit key as an `int`. A key survives
  this only if it is below 2^31 or among the top 2^31 values (`SurvivesExactly`).
  In every table the program can build, a stored pair is found for exactly the keys
  that survive (`StoredIsFoundIff`), and so is what was just inserted
  (`InsertThenFindIff`); a resize keeps every pair as often as it is stored, whatever
  the keys (`GrowLosesNothing`). A table is emptied by its iterator without failing a
  check if and only if all its keys survive (`DrainsCleanlyIff`). The program's own
  hash of the one-letter word "a" does not survive (`WordIsLost`).
* Hence the exact condition under which `HandleFile` does not abort (`AddFileIff`): the
  hashes of the file's words survive and collide neither with each other nor with
  those of the index, and the document number of the file has no postings yet for any
  of its words (hw2/MemIndex.c:155). For a whole crawl (`CrawlPassesIff`): all hashes
  of its words survive, no two collide, and no two files with one number share a
  word. A crawl that meets the word "a" aborts (`WordAborts`), and so does one that
  meets a file again under a name whose hash survives (`SecondTimeAborts`).
* Two files get one number if the name of the second is taken for that of the first:
  its narrowed hash is the hash of the earlier name and the two hashes share a bucket
  (`FoundId`). If they have no word in common no check fails, but the index then has
  one document where there are two files; the results on searches therefore assume
  `NamesApart`, which holds exactly if the files get the numbers 1, 2, 3, ...
  (`NamesApartIff`). Then only the words decide whether the crawl aborts (`ApartNamesPass`).
* The comment in hw1/HashTable.c:434 speaks of a load factor above three, but the
  table already grows when the factor is exactly three; the model grows there too.
* `InsertContent` stops at the terminator without recording a word that touches it
  (hw2/FileParser.c:236-237). A word is therefore a maximal run of letters that a
  non-letter byte follows.
* A query word whose hash does not survive, or is that of another word, is not an
  error for the program: it answers for the word whose hash is the narrowed hash of the
  query word if the two hashes share a bucket (`Meant`). In the index of a crawl the
  word finds its own entry, or nothing if it has none, exactly if no other word lies
  there (`QueryWordIff`).
* The two bracket matchers are inverses of each other, in any text, from every
  character but the two angle brackets, and only from those (`RoundTripIff`). From '<'
  the forward matcher takes the '>' of a spaced ">=" for a closing bracket
  (`SpacedGreaterEqual`); from the '>' of an arrow the backward matcher goes on with
  nothing pending and finds a group before the arrow (`ArrowAfterGroup`). Where they
  stop is the end of one group in any case (`ClosingIff`, `OpeningIff`), but they judge
  angle brackets differently: the backward matcher ignores a '>' right behind the word
  operator, the forward matcher one a character later (bin/cpplint.py:1574), and of a
  row of '<' the one cancels, the other skips in pairs. From a '<' or '>' that does not
  count, both go on to the next group on the line.
* List333's assignment says that it worries about a source that is a successor of
  the target (ex07/List333.cc:50-51), and that case is right. If instead the source
  leads to the target the copying loop never ends (`EndlessAssignment`); two nodes are
  enough (`TwoNodes`).
* The transition table of ex05/ex05.c does not reset the word when whitespace
  follows a word without vowels (line 136), so a printed line starts with the
  vowel-free words just before the accepted word. A NUL in the input cuts the printed
  line short. The byte 0xFF reads as the end of
  the input in all three programs of ex05. The two other programs write round and
  round a buffer of 100 characters, so of a long word they print only what follows
  the last full round (`Shown`).

## Model

| member | source | states |
|---|---|---|
| SortSpec.SwapRemovesOneInversion | hw1/LinkedList.c:179-211 | swapping two neighbours that are out of order removes exactly one inversion, so the sort terminates |
| SortSpec.SwapIsStable | hw1/LinkedList.c:194-209 | such a swap keeps the list a rearrangement in which ties stand in their original order |
| SortSpec.NeighboursSuffice | hw1/LinkedList.c:187-210 | a pass without a swap means that the whole list is sorted, not only neighbours |
| SortSpec.StableSortIsUnique | hw1/LinkedList.c:179-211 | there is only one stable sort of a list, so the contract of Sort fixes its result |
| LinkedLists.LinkedList.constructor | hw1/LinkedList.c:23-38 | a new list is well linked and empty |
| LinkedLists.LinkedList.NumElements | hw1/LinkedList.c:63-66 | the count is the length of the represented sequence |
| LinkedLists.LinkedList.Push | hw1/LinkedList.c:68-101 | head, tail, prev, next and count again agree with the sequence, which has the payload in front |
| LinkedLists.LinkedList.Pop | hw1/LinkedList.c:103-138 | takes the first element off and returns it; fails exactly on the empty list and then changes nothing |
| LinkedLists.LinkedList.Append | hw1/LinkedList.c:140-177 | the sequence has the payload at its end, and the nodes that were there keep their places |
| LinkedLists.LinkedList.Slice | hw1/LinkedList.c:345-374 | takes the last element off and returns it; fails exactly on the empty list and then changes nothing |
| LinkedLists.LinkedList.Sort | hw1/LinkedList.c:179-211 | for any consistent comparator, terminates with the stable sort in the asked direction: of any two payloads the comparator puts the earlier not behind the later if ascending, not in front of it if not; nodes and links stay |
| LinkedLists.LinkedList.BubblePass | hw1/LinkedList.c:190-208 | a pass either lowers the number of inversions or finds all neighbours sorted and changes nothing |
| LinkedLists.LLIterator.constructor | hw1/LinkedList.c:217-229 | a new cursor stands on the head |
| LinkedLists.LLIterator.IsValid | hw1/LinkedList.c:236-241 | true exactly if the cursor stands on an element |
| LinkedLists.LLIterator.Next | hw1/LinkedList.c:243-262 | moves to the successor, and reports exactly whether there is one |
| LinkedLists.LLIterator.Get | hw1/LinkedList.c:264-270 | returns the element under the cursor |
| LinkedLists.LLIterator.Remove | hw1/LinkedList.c:272-339 | deletes exactly the element under the cursor, which is then on the successor, on the predecessor if the tail went, or invalid if the list is empty |
| LinkedLists.LLIterator.RelinkAround | hw1/LinkedList.c:311-331 | in each of the three splicing cases the remaining nodes are linked as one list and no payload has moved |
| LinkedLists.LLIterator.Rewind | hw1/LinkedList.c:376-378 | the cursor is on the head again |
| ChainTable.InsertKeepsInvariant | hw1/HashTable.c:121-193 | after an insertion with its resize, every key is in bucket key % num_buckets and the load is at most three |
| ChainTable.RemoveKeepsInvariant | hw1/HashTable.c:235-280 | removal keeps keys in their buckets and the load within three |
| ChainTable.GrowMakesRoom | hw1/HashTable.c:429-464 | after MaybeResize the load is strictly below three, so the nested insertions cannot resize again |
| ChainTable.CountAfterInsert | hw1/HashTable.c:151-192 | an insertion adds one element exactly if it replaced none |
| ChainTable.CountAfterRemove | hw1/HashTable.c:251-279 | a removal takes one element out exactly if it found one |
| ChainTable.PairsAfterTakingOut | hw1/HashTable.c:405-427 | taking one pair out leaves all other pairs in the order of iteration |
| HashTables.HashTable.constructor | hw1/HashTable.c:66-84 | a new table has separate empty chains and meets the invariant |
| HashTables.HashTable.NumElements | hw1/HashTable.c:116-119 | the count is the number of stored pairs |
| HashTables.HashTable.Insert | hw1/HashTable.c:121-193 | resizes first, then replaces the pair under the narrowed key or adds one; flag and old pair say which; terminates together with MaybeResize |
| HashTables.HashTable.ChainInsert | hw1/HashTable.c:151-192 | on one chain, the pair found goes away and the new one goes to the end |
| HashTables.HashTable.Find | hw1/HashTable.c:195-233 | returns the first pair of the bucket whose key is the narrowed key, or reports that there is none |
| HashTables.HashTable.Remove | hw1/HashTable.c:235-280 | takes that pair out and returns it, or reports that there is none and changes nothing |
| HashTables.HashTable.HasKey | hw1/HashTable.c:467-491 | leaves the cursor on the first pair whose key equals the narrowed key, or past the end |
| HashTables.HashTable.MaybeResize | hw1/HashTable.c:429-464 | below load three changes nothing; otherwise the table has nine times the buckets and exactly its old pairs inserted in order |
| HashTables.HashTable.CopyInto | hw1/HashTable.c:444-451 | the copying loop visits each pair once, and none of its insertions resizes the new table |
| HashTables.HTIterator.constructor | hw1/HashTable.c:286-315 | a new iterator stands on the first pair in bucket order, or is invalid on an empty table |
| HashTables.HTIterator.IsValid | hw1/HashTable.c:326-332 | true exactly while there are pairs left |
| HashTables.HTIterator.Next | hw1/HashTable.c:334-382 | moves to the next pair in bucket order, over empty buckets, and reports whether there is one |
| HashTables.HTIterator.Get | hw1/HashTable.c:384-403 | returns the pair at the cursor, or reports that it is invalid |
| HashTables.HTIterator.Remove | hw1/HashTable.c:405-427 | takes out and returns exactly the pair at the cursor, which is then on what followed; both its Verify333 comparisons hold |
| TableLaws.SurvivesExactly | hw1/HashTable.c:467-484 | a 64-bit key passes through the int parameter of hasKey unchanged exactly if it is below 2^31 or at least 2^64 - 2^31 |
| TableLaws.NarrowIs | hw1/HashTable.c:467-484 | the key that hasKey compares with is the one that agrees with the given key in the low 32 bits and that a C int can hold, sign extended |
| TableLaws.PlacedModulo | hw1/HashTable.c:32-34 | each pair is in the bucket whose number is its key modulo the number of buckets |
| TableLaws.LookupIff | hw1/HashTable.c:195-233 | a lookup by exact key finds a value exactly if that pair is stored |
| TableLaws.FindReadsMap | hw1/HashTable.c:195-233 | HashTable_Find reads the represented map |
| TableLaws.InsertUpdatesMap | hw1/HashTable.c:121-193 | HashTable_Insert, with any resize inside, updates the represented map at one key and keeps the table canonical |
| TableLaws.RemoveShrinksMap | hw1/HashTable.c:235-280 | HashTable_Remove takes one key out of the represented map and keeps the table canonical |
| TableLaws.GrowKeepsMap | hw1/HashTable.c:429-464 | a resize keeps the represented map |
| TableLaws.CountIsMapSize | hw1/HashTable.c:116-119 | the number of elements is the size of the map |
| TableLaws.PairsHaveUniqueKeys | hw1/HashTable.c:334-382 | a whole iteration meets no key twice |
| SurvivorLaws.RunsKeepOnce | hw1/HashTable.c:121-280 | in every table that a run of any operations on any keys builds, each pair is in its bucket and no surviving key occurs twice |
| SurvivorLaws.CanonicalIff | hw1/HashTable.c:121-280 | the tables that represent a map are exactly those of these whose keys all survive |
| SurvivorLaws.InsertThenFindIff | hw1/HashTable.c:467-491 | in every such table, reading back what was just inserted works if and only if the key survives hasKey |
| SurvivorLaws.StoredIsFoundIff | hw1/HashTable.c:422-425 | in every such table, a stored pair is found under its key if and only if the key survives; exactly then the checks of HTIterator_Remove hold |
| SurvivorLaws.FindReadsNarrow | hw1/HashTable.c:195-233 | what a lookup gives for any key at all in a table that represents a map: the value of the narrowed key, if it lies in the bucket of the key |
| SurvivorLaws.DrainsCleanlyIff | hw1/HashTable.c:405-427 | a table is emptied by removing its first pair again and again without failing a check if and only if all its keys survive |
| ReachableTables.RunsAreInOrder | hw1/HashTable.c:121-280 | in every table that a run of any operations on any keys builds, no pair stands behind one that it would have replaced |
| ReachableTables.GrowLosesNothing | hw1/HashTable.c:429-464 | in every such table a resize keeps exactly the stored pairs, each as often as it is stored, also under keys that do not survive |
| ReachableTables.InsertAddsOne | hw1/HashTable.c:121-193 | an insertion for a key that is not found adds its pair and keeps all others, each as often as it is stored, through any resize |
| TableLaws.RunsRefineMap | hw1/HashTable.c:121-280 | every run of Insert, Find and Remove on surviving keys behaves as on a finite map: all returned pairs and flags agree, and so do the final contents |
| TableIteration.VisitAll | hw1/HashTable.c:444-451 | a loop over IsValid, Get and Next sees every pair exactly once, in bucket order, and leaves the iterator invalid |
| TableIteration.Drain | hw2/CrawlFileTree.c:258-278 | repeating HTIterator_Remove until the iterator is invalid returns every pair exactly once, in the order of iteration, empties the table, and none of the checks inside fails |
| Fnv.FNVHash64 | hw1/HashTable.c:46-64 | the loop computes the iterated round from the initial value |
| Fnv.XorOctetBit | hw1/HashTable.c:59 | xoring an octet in flips exactly the bits that are set in it |
| Fnv.TimesPrimeCancels | hw1/HashTable.c:61 | multiplying by the prime is undone by its inverse modulo 2^64 |
| Fnv.RoundIsInjective | hw1/HashTable.c:57-62 | for each octet a round maps different states to different states |
| Fnv.OctetsSeparate | hw1/HashTable.c:57-62 | from each state different octets lead to different states |
| Fnv.OneOctetDifferenceIsSeen | hw1/HashTable.c:46-64 | two equally long buffers that differ in exactly one byte never have equal hashes |
| Fnv.WordIsLost | hw1/HashTable.c:467-491 | every table stores what is inserted for the program's own hash of "a", and no table ever finds it |
| WordSpec.OffsetsAreRuns | hw2/FileParser.c:203-253 | the offsets of a word are, strictly ascending, the starts of exactly the maximal letter runs that read as the word and are followed by a non-letter |
| WordSpec.OffsetPerRun | hw2/FileParser.c:203-253 | the total number of offsets in a document's table is the number of letter runs that a non-letter follows |
| LetterLaws.OffsetsSpell | hw2/FileParser.c:235-250 | by character codes: the offsets of a word are the places where its letters stand, each small or capital, between non-letters |
| LetterLaws.WordsAreSmall | hw2/FileParser.c:239-241 | every word of a document consists of bytes a to z |
| LetterLaws.SmallTextIsKept | hw2/FileParser.c:239-241 | in a text without capitals each word stands at its offsets as it is |
| LetterLaws.CaseDoesNotMatter | hw2/FileParser.c:235-250 | texts that differ only in the case of letters have the same words at the same offsets |
| WordSpec.PassBoundary | hw2/FileParser.c:242-250 | passing a boundary adds exactly the run that ends there to the words found so far |
| WordSpec.PassEnd | hw2/FileParser.c:236-237 | letters that touch the terminator add no word |
| FileParsing.WordTable.AddWordPosition | hw2/FileParser.c:255-308 | appends the offset to the word's list, which is new if the word was; the check against collisions holds |
| FileParsing.WordTable.InsertContent | hw2/FileParser.c:203-253 | the table holds each word exactly at the places where it is spelled in any case between non-letters, one offset for each run in total, and the buffer ends with letters lower-cased and all other bytes zero |
| FileParsing.WordTable.AtBoundary | hw2/FileParser.c:246-248 | at a boundary the table gains the word that ends there, if there is one |
| FileParsing.WordTable.NumWords | hw2/FileParser.c:184 | the element count is the number of different words |
| FileParsing.WordTable.RemoveNext | hw2/CrawlFileTree.c:260-269 | hands out one word with exactly its offsets, in a list that shares nothing with what stays in the table |
| FileParsing.StrLen | hw2/FileParser.c:156 | finds the first terminator |
| FileParsing.ParseIntoWordPositionsTable | hw2/FileParser.c:148-193 | returns a table exactly if the text is not empty, all ASCII and has a word; the table then holds each word exactly at the places where it is spelled |
| DocTables.NameLaw | hw2/DocTable.c:110-143 | without hash collisions id to name to id and name to id to name are identities, and a name is found exactly if it was added |
| DocTables.FoundIdIff | hw2/DocTable.c:73-76 | a name is found exactly if an earlier name has its narrowed hash and the two hashes share a bucket; for a hash that survives, exactly if an earlier name has that hash |
| DocTables.DocTable.constructor | hw2/DocTable.c:30-38 | a new table has no documents |
| DocTables.DocTable.NumDocs | hw2/DocTable.c:52-55 | the count is the number of names |
| DocTables.DocTable.Add | hw2/DocTable.c:57-108 | returns the number of the earlier name that the lookup finds, changing nothing, or else gives the name the next number; for any hash it says which |
| DocTables.DocTable.SurvivingNamesDiffer | hw2/DocTable.c:73-76 | in every reachable table, names whose hashes survive have different hashes |
| DocTables.DocTable.GetDocID | hw2/DocTable.c:110-124 | returns the number of the name that the lookup finds, or the invalid id; for any hash it says which |
| DocTables.DocTable.GetDocName | hw2/DocTable.c:126-143 | returns the name of exactly the ids that were given out; an id that does not survive is taken for the narrowed one exactly if the two share a bucket |
| SearchSpec.IntersectionExtends | hw2/MemIndex.c:235-290 | intersecting correct results for a query with a further word's postings gives correct results for the longer query |
| SearchSpec.SortedResults | hw2/MemIndex.c:228-231 | sorting keeps the results and puts the ranks in non-increasing order |
| SearchSpec.NoMatchForMore | hw2/MemIndex.c:246-249 | when no document matches so far, none matches the whole query |
| CorpusSpec.MatchesIsNaiveScan | hw2/MemIndex.c:170-295 | a document id matches a query in the index exactly if it numbers a text that contains every query word |
| CorpusSpec.RankIsNaiveRank | hw2/MemIndex.c:213-215 | a rank computed from postings is the number of occurrences found by scanning the text |
| CorpusSpec.MergeDocument | hw2/CrawlFileTree.c:254-278 | merging one document's word table into the index of a corpus gives the index of the corpus with that document |
| MemIndexes.MemIndex.constructor | hw2/MemIndex.c:76-82 | a new index is empty |
| FileParsing.MeantIff | hw2/MemIndex.c:241-249 | a query word is read as itself exactly if its lookup leads to no other word; words of the index always are, and so is a word whose hash survives and is nobody else's |
| FileParsing.MeantAsAsked | hw2/MemIndex.c:170-295 | a query is answered as it was asked exactly if none of its words leads to another |
| MemIndexes.MemIndex.FindWord | hw2/MemIndex.c:106 | finds the entry of the word that the lookup of a word leads to, exactly if the index has that word |
| MemIndexes.MemIndex.AddPostingList | hw2/MemIndex.c:92-168 | the index gains exactly this document under this word; the checks against collisions and against a second posting hold |
| MemIndexes.FirstResults | hw2/MemIndex.c:199-222 | one result for each document of the first word, ranked by its number of occurrences |
| MemIndexes.Intersect | hw2/MemIndex.c:262-282 | the fixed count of iterations under deletion looks at each document once with a valid cursor and leaves, in order, exactly those in the new postings, with raised ranks |
| MemIndexes.IntersectOne | hw2/MemIndex.c:266-281 | one iteration either raises the rank under the cursor and advances or deletes the result and is on the next one |
| MemIndexes.MemIndex.NextWord | hw2/MemIndex.c:235-290 | after a further query word the results are those of the longer query, or there are none and the search ends; for any hashes, with each query word read as the word its lookup leads to |
| MemIndexes.MemIndex.Search | hw2/MemIndex.c:170-295 | null exactly for an empty query or when no document matches; otherwise every matching document once, with its rank, in non-increasing rank; for any hashes, with each query word read as the word its lookup leads to |
| FileTree.ArrangeAscends | hw2/CrawlFileTree.c:215 | the entries are in ascending order after the sort |
| FileTree.ArrangeKeeps | hw2/CrawlFileTree.c:215 | the sort only rearranges the entries |
| FileTree.PathnameLeads | hw2/CrawlFileTree.c:173-181 | splitting the pathname of an entry at its last "/" gives back the name and the directory, without a final "/" |
| FileTree.PathnamesDiffer | hw2/CrawlFileTree.c:173-181 | two entries have one pathname if and only if they have one name and their directories differ at most in a final "/" |
| FileTree.ItemsList | hw2/CrawlFileTree.c:134-211 | the listed items are exactly those of the entries other than "." and ".." |
| FileTree.StrncmpIff | hw2/CrawlFileTree.c:40-44 | one string is before another exactly if, at the first of the compared places where they differ, it has the smaller byte |
| FileTree.AlphasortIff | hw2/CrawlFileTree.c:31-44 | items are ordered by the first 1024 bytes of their pathnames |
| FileTree.StrncmpChains | hw2/CrawlFileTree.c:40-44 | the comparison of pathnames is transitive within the compared length |
| FileTree.StrncmpFlips | hw2/CrawlFileTree.c:40-44 | exchanging the pathnames exchanges the sign |
| FileTree.AscendingItemsAgree | hw2/CrawlFileTree.c:213-218 | two ascending lists of the same items with distinct pathnames agree item by item, in pathname and in what the entry holds |
| FileTree.VisitsIgnoreOrder | hw2/CrawlFileTree.c:112-233 | permuting the entries of any directories of a tree does not change the sequence of visited files, hence neither ids nor index |
| CrawlSpec.VisitsConcatenate | hw2/CrawlFileTree.c:218-228 | the corpus of two successive crawls is the one corpus followed by the other |
| CrawlFileTrees.HandleFile | hw2/CrawlFileTree.c:235-284 | a file that can be indexed becomes the next document of the table and of the index; any other changes nothing |
| CrawlFileTrees.DrainInto | hw2/CrawlFileTree.c:257-279 | emptying the word table by iterator removal moves every word with its offsets into the index, each once |
| CrawlFileTrees.VisitFile | hw2/CrawlFileTree.c:219-220 | names, texts and index grow by what the visit contributes |
| CrawlFileTrees.HandleDir | hw2/CrawlFileTree.c:112-233 | table and index describe the old corpus followed by the files of this directory in sorted order, depth first |
| CrawlFileTrees.ReadEntries | hw2/CrawlFileTree.c:134-211 | the first pass collects exactly the entries other than "." and "..", each with a pathname whose part behind the last "/" is the name and whose part before it is the directory without a final "/" |
| CrawlFileTrees.CrawlFileTree | hw2/CrawlFileTree.c:66-105 | fails exactly without a readable root; otherwise table and index describe the corpus of the tree |
| AbortLaws.ParseIff | hw2/CrawlFileTree.c:246-278 | a file's words are parsed and drained again without failing a check if and only if their hashes survive and do not collide |
| AbortLaws.AddFileIff | hw2/CrawlFileTree.c:235-284 | HandleFile adds a file to the index without failing a check if and only if the hashes of its words survive and collide neither with each other nor with the index, and none of its words has postings under the number of the file |
| AbortLaws.CrawlPassesIff | hw2/CrawlFileTree.c:66-105 | a crawl passes the checks on words, keys and postings if and only if the hash of every word of the corpus survives, no two words collide, and no two files that get one number share a word |
| AbortLaws.AddPostingsIff | hw2/MemIndex.c:92-168 | a posting is added exactly if the record found for the word is its own and has none for the document; then exactly that posting is new |
| AbortLaws.NamesApartIff | hw2/DocTable.c:57-108 | no name is taken for an earlier one if and only if the files get the numbers 1, 2, 3, ... |
| AbortLaws.SecondTimeAborts | hw2/MemIndex.c:154-155 | a crawl that meets a file again under a name whose hash survives aborts, if the two texts share a word |
| AbortLaws.WordAborts | hw2/CrawlFileTree.c:268 | with the program's own hash, a crawl that meets the word "a" aborts |
| AbortLaws.QueryWordIff | hw2/MemIndex.c:244-249 | in the index of a crawl a query word finds its own entry, or nothing if it has none, if and only if no other word lies where its narrowed hash leads |
| SearchShell.PrintOutput | hw2/searchshell.c:166-185 | prints name and rank of every result in order and empties the list |
| SearchShell.LinesAreNaive | hw2/searchshell.c:166-185 | the lines printed for search results are the answer of a naive scan |
| SearchShell.AnswerQuery | hw2/searchshell.c:73-81 | the lines for a query name exactly the documents that contain all its words, each read as the word its lookup leads to, each document once, best rank first |
| SearchShell.Session | hw2/searchshell.c:61-83 | for every tree and every list of queries, all answers are those of a naive scan of the files for the words that the query words lead to |
| BracketSpec.RunFindsGroups | bin/cpplint.py:1519-1594 | from an opener, a stack machine stops exactly at the end of a text if and only if the text is one balanced group |
| BracketSpec.RunTrichotomy | bin/cpplint.py:1519-1594 | from an opener the machine stops after n characters exactly if these are a group, runs on exactly if the text can be completed to a group, and fails exactly if no prefix is a group and no continuation makes one |
| BracketSpec.BalancedTextIsSkipped | bin/cpplint.py:1532-1594 | balanced text in front does not change what a scan with a given stack finds |
| BracketSpec.GroupIffMirror | bin/cpplint.py:1641-1715 | a text is one balanced group exactly if its mirror image is |
| BracketMatching.FindEndOfExpressionInLine | bin/cpplint.py:1519-1594 | the index loop over one line returns what the scan by single steps does: end, failure, or the stack to go on with |
| BracketMatching.CloseExpression | bin/cpplint.py:1597-1638 | returns the line and column just past the match, or the end of the file and -1 |
| BracketMatching.FindStartOfExpressionInLine | bin/cpplint.py:1641-1715 | the backward loop over one line returns what the backward scan by single steps does |
| BracketMatching.ReverseCloseExpression | bin/cpplint.py:1718-1753 | returns line and column of the opening bracket, or the start of the file and -1 |
| BracketTheorem.ClosingIffGroup | bin/cpplint.py:1597-1638 | from any character but an angle bracket CloseExpression stops at a place exactly if the text up to there, across lines and with any angle brackets in it, is one balanced group |
| BracketTheorem.OpeningIffGroup | bin/cpplint.py:1718-1753 | from any character but an angle bracket ReverseCloseExpression stops at a place exactly if the text from there is one balanced group |
| BracketTheorem.MatchersUndoEachOther | bin/cpplint.py:1519-1753 | between two places that hold no angle brackets, one matcher goes from the one to the other exactly if the other matcher goes back |
| BracketTheorem.RoundTrip | bin/cpplint.py:1519-1753 | in any file, going from any character but an angle bracket to its partner and back returns to it, from either side |
| BracketTheorem.RoundTripIff | bin/cpplint.py:1519-1753 | the walk from a character and back returns in every file and from every place if and only if the character is not an angle bracket |
| BracketTheorem.SpacedGreaterEqual | bin/cpplint.py:1663-1673 | with a spaced ">=" the forward matcher finds an end from which the backward matcher does not return |
| BracketTheorem.ArrowAfterGroup | bin/cpplint.py:1663-1671 | from the ">" of an arrow the backward matcher finds the start of the group before it, from which the forward matcher does not return |
| AngleSpec.AngleEndIff | bin/cpplint.py:1519-1594 | with angle brackets pending, the machine stops at the end of a text if and only if the text is "<", content, ">", where content is plain characters, pairs of angle brackets and other groups, in which angle brackets do not matter |
| AngleSpec.AngleGroupIffMirror | bin/cpplint.py:1641-1715 | a text without "<<" is one angle group exactly if its mirror image is |
| AngleTheorem.OperatorIff | bin/cpplint.py:1545-1574 | the regular expression finds the word operator, at the start of a word, with only white space behind it |
| AngleTheorem.ClosingIff | bin/cpplint.py:1519-1638 | from any bracket CloseExpression stops at a place if and only if the text up to there is one group, which starts at the bracket or, if that is a "<" that does not count, behind idle characters of its line; which angle brackets count is said by their neighbours |
| AngleTheorem.OpeningIff | bin/cpplint.py:1641-1753 | from any bracket ReverseCloseExpression stops at a place if and only if the text from there is one group, which ends at the bracket or, if that is a ">" that does not count, in front of idle characters of its line |
| Preprocessor.NestingState.UpdatePreprocessor | bin/cpplint.py:2540-2594 | pushes, restores and pops the saved stacks as the directive of the line asks, and ignores other lines and an unexpected #else or #endif |
| Preprocessor.ClassifyIff | bin/cpplint.py:2561-2580 | a line is a directive exactly if it is "#" with white space on both sides, then one of the words if, ifdef, ifndef or else, elif or endif, then its end or a character outside words |
| Preprocessor.FirstBranchWins | bin/cpplint.py:2550-2556 | over the lines of any nested source, with any effect of each line on the stack, the stack after the line of #endif is the one that the first branch and the lines of #if and #endif leave, and pp_stack has its old depth |
| Preprocessor.LaterBranchesAreUndone | bin/cpplint.py:2575-2591 | what the lines of the branches after the first one do has no effect |
| IndexFiles.HashTableReader.constructor | hw3/HashTableReader.cc:24-32 | the number of buckets is read from the table's header |
| IndexFiles.FieldBytes | hw3/HashTableReader.cc:24-77 | the fields of 2, 4 and 8 bytes have their most significant byte first and, where signed, are complements of two |
| IndexFiles.HashTableReader.LookupElementPositions | hw3/HashTableReader.cc:39-82 | returns the positions of all elements of the bucket that the hash selects, in stored order |
| StoredTables.BucketDecides | hw3/HashTableReader.cc:39-43 | a key is stored anywhere exactly if it is stored in the bucket its hash selects |
| StoredTables.StoresOnce | hw3/DocIDTableReader.cc:40-78 | what a well-formed table stores under a key is unique |
| StoredTables.WalkIsStored | hw3/DocIDTableReader.cc:91-140 | a walk over all buckets meets exactly the stored entries and no key twice |
| TableReaders.DocIDTableReader.LookupDocID | hw3/DocIDTableReader.cc:29-82 | succeeds exactly if the docID is stored and then returns all its positions in stored order |
| TableReaders.DocIDTableReader.ReadIfMatch | hw3/DocIDTableReader.cc:48-67 | reads the docID of an element and, if it matches, exactly numPositions positions |
| TableReaders.DocIDTableReader.GetDocIDList | hw3/DocIDTableReader.cc:84-144 | returns docID and number of positions of every element, bucket by bucket |
| TableReaders.LookupsMatchList | hw3/DocIDTableReader.cc:29-144 | LookupDocID succeeds for exactly the docIDs that GetDocIDList returns, each once, with as many positions as the list says |
| TableReaders.IndexTableReader.LookupWord | hw3/IndexTableReader.cc:37-106 | finds a reader for a word's docID table exactly if the word is stored, also among words with its bucket or its hash |
| TableReaders.IndexTableReader.ReadIfMatch | hw3/IndexTableReader.cc:60-99 | an element matches exactly if it holds the word, and the sub-table starts behind the word's bytes |
| TableReaders.DocTableReader.LookupDocID | hw3/DocTableReader.cc:33-80 | succeeds exactly if the docID is stored and then returns its file name |
| Lists333.List333.Delete | ex07/List333.cc:31-34 | deletes a node and all its successors, each once |
| Lists333.List333.Assign | ex07/List333.cc:48-69 | the target has the values the source had, in fresh nodes behind its own; its old successors are deleted; no deleted node is read, also for self-assignment and for a source among the target's successors |
| Lists333.List333.CopyValues | ex07/List333.cc:54-63 | the copying loop terminates unless the source leads to the target, and deletes nothing |
| Lists333.Copy | ex07/List333.cc:37-46 | the copy has equal values in fresh nodes only |
| Lists333.List333.EndlessAssignment | ex07/List333.cc:56-62 | if the source leads to the target, the copying loop on these very nodes has a further node to copy after any number of iterations |
| Lists333.TwoNodes | ex07/List333.cc:56-62 | assigning a list to the successor of its one other node is such a case |
| VowelMachines.System.AddChar | ex05/ex05.c:71-101 | appends one character to the accumulated word, in a buffer twice as large if it was full |
| VowelMachines.StateFollowsVowels | ex05/ex05.c:133-205 | the transition table's state is determined by the vowels of the current word |
| VowelMachines.RunEx05 | ex05/ex05.c:211-230 | prints one line for each word whose vowels are exactly a, e, i, o, u in order: the vowel-free words just before it, and the word, up to a NUL |
| VowelMachines.RunStateMachine | ex05/state-machine.c:171-190 | prints exactly where a word ends that has "aeiou" as a subsequence in any case: what the buffer shows of the words without an 'a' just before it and of the word |
| VowelMachines.RunUndisciplined | ex05/undisciplined.c:14-60 | prints exactly where a word ends that has "aeiou" as a subsequence in lower case: what the buffer shows of the word |
| VowelMachines.WrapBuffer.PrintWord | ex05/state-machine.c:69-81 | of characters written round and round into the buffer, prints those after the last full round, up to a NUL |
| VowelSpec.ProgressIsSubsequence | ex05/state-machine.c:103-165 | greedy reading from the left finds a prefix of "aeiou" exactly if it is a subsequence |
| VowelSpec.TextIs | ex05/ex05.c:211-222 | the programs read the bytes before the first 0xFF, as signed characters |
| VowelSpec.WordsAreSeparated | ex05/ex05.c:47-62 | the words are the text cut at its white space, by character codes, and nowhere else |
| VowelSpec.VowelCodes | ex05/ex05.c:47-62 | the vowels are a, e, i, o, u and their capitals, by character codes |
| VowelSpec.LinePerAccepted | ex05/ex05.c:195-204 | the number of lines is the number of accepted words |
| VowelSpec.EndPerWord | ex05/state-machine.c:155-164 | the number of prints is the number of words that are looked for |
| VowelSpec.AcceptedHasAEIOU | ex05/ex05.c:133-205 | every word ex05.c accepts is one state-machine.c prints for |
| VowelSpec.AcceptedAreFewer | ex05/ex05.c:133-205 | ex05.c prints at most as often as state-machine.c |
| VowelSpec.SamePlaces | ex05/undisciplined.c:14-60 | on a text without upper-case vowels, state-machine.c and undisciplined.c print at the same places |

## Left out

- Memory: malloc failure, and `LinkedList_Free`, `HashTable_Free`, `MemIndex_Free`, `DocTable_Free` and the iterators' `Free` functions; nodes that removal frees are modelled.
- 32-bit overflow of counts, offsets, ranks and bucket numbers; sizes are assumed to fit.
- LinkedLists.LLIterator.Update: a result in the search's list is a value in its node, so another pointer to the same result is not captured.
- SearchShell.PrintOutput: returns the lines instead of printing them.
- FileParsing.WordTable.AddWordPosition: requires that the hashes of the table's words and of the new one survive and do not collide; otherwise the program aborts, at once or when the table is drained (AbortLaws.ParseIff), and what the table holds until then is modelled there only.
- FileParsing.WordTable.InsertContent: the same for the words of the text.
- FileParsing.WordTable.AtBoundary: the same for the words of the text.
- FileParsing.ParseIntoWordPositionsTable: the same for the words of the text; `ReadFileToString` is not modelled, and a file is the byte sequence it would return, or absent.
- MemIndexes.MemIndex.AddPostingList: the same for the words of the index and the new one (AbortLaws.AddFileIff).
- CrawlFileTrees.HandleFile: the same for the words of the corpus and the file, and that the file gets a number of its own; with the number of an earlier file it aborts if they share a word, and otherwise makes one document of two files.
- CrawlFileTrees.DrainInto: the same for the words of the corpus and the file.
- CrawlFileTrees.VisitFile: as for HandleFile.
- CrawlFileTrees.HandleDir: the same for the words of the tree (AbortLaws.CrawlPassesIff), and that every file gets a number of its own (AbortLaws.NamesApartIff), since otherwise the crawl aborts or one number stands for two files.
- CrawlFileTrees.CrawlFileTree: as for HandleDir.
- SearchShell.Session: as for CrawlFileTree; of the queries nothing is required.
- `GetNextLine` of hw2/searchshell.c (reading and splitting a line) is console input; a query is a sequence of words.
- FileTree.ArrangeAscends: the library's `qsort` is represented by an insertion sort; entries whose pathnames agree within the compared length may come out in another order.
- CrawlFileTrees.ReadEntries: `opendir`, `readdir` and `stat` are represented by a tree; growth of the entries array is that of a sequence, and the kind of an entry for which `stat` fails, which the C code leaves uninitialised, is not modelled.
- IndexFiles.HashTableReader.LookupElementPositions: the image is required to hold the records the table's header announces; a short or corrupt file is not modelled.
- The index writer, the checksum and the query processor of hw3 (`WriteIndex.cc`, `Utils.cc`, `FileIndexReader.cc`, `QueryProcessor.cc`).
- BracketTheorem.MatchersUndoEachOther: says nothing of walks from or to an angle bracket, where the law fails (BracketTheorem.RoundTripIff); where such walks stop is AngleTheorem.ClosingIff and AngleTheorem.OpeningIff.
- BracketMatching.FindEndOfExpressionInLine: regular expressions over letters, digits and blanks are those of ASCII.
- Preprocessor.NestingState.UpdatePreprocessor: stacks are values, so the difference between a deep and a shallow copy is not captured.
- The rest of bin/cpplint.py and bin/clint.py: style heuristics without a crisp specification.
- Lists333.List333.Assign: the value of a node is a field, where the C++ code keeps it behind a pointer.
- VowelMachines.RunEx05: the terminator stored one place behind a full buffer is not modelled.
- The gtest headers, hw0, ex00 to ex04, ex06 and the example programs would add only easy members.
