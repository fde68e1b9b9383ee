# A verified model of a small search engine

This project models, in Dafny, the core of a small search engine and of the lint tool kept beside it, and proves
what each part promises.

| files | what they model |
|---|---|
| `StableSort`, `LinkedList`, `Chains`, `HashTable`, `TableRun`, `Fnv` | hw1: a doubly linked list with in-place iterator edits and a bubble sort, and a chained hash table that resizes itself, as objects on the heap. Every operation is proved against a sequence or a `map`, and whole runs of operations as well. |
| `Words`, `FileParser`, `DocTable`, `Collision`, `Queries`, `MemIndex`, `FileCrawler`, `CrawlRun`, `TextLaw`, `SearchEngine` | hw2: the tokenizer that cuts its buffer in place, the document table, the inverted index of nested hash tables, the drain loop that moves a file's words into it, and the query that deletes from the list it walks. `TextLaw` says byte by byte what a word of a text is, and `SearchEngine` connects them: what a query returns, said about the texts of the files. |
| `Registers`, `Crc32`, `CrcProperties` | hw3: the table-driven CRC-32. It equals the bitwise one of section 8 of RFC 1952, and that one is polynomial division as ISO 3309 defines it; it detects every burst of up to 32 bits. |
| `Layout`, `HashTableReader`, `DocIDTableReader`, `DocTableReader`, `IndexTableReader`, `FileIndexReader`, `CheckValue`, `QueryProcessor`, `Engines` | hw3: the readers of an index file, over an image of bytes and one shared file position, and the join-based query processor. `CheckValue` computes the check value of CRC-32 and says byte by byte which files open. `Engines` proves that it agrees with the query of hw2. |
| `FileIndexWriter`, `IndexRoundTrip`, `Snapshot`, `IndexWriter`, `OnDisk`, `DiskSearch` | hw3: the writer of an index file, from the hash tables on the heap to the bytes. The readers read back what it wrote, `OnDisk` says at which bytes everything is, `WriteAndQuery` connects the two engines through the file, and `SearchOnDisk` says about the texts what a search of the file returns. |
| `Brackets`, `LineText`, `LineScan`, `FileScan`, `AngleScan`, `AngleText`, `ArgumentScan`, `ScanRoundTrip`, `RoleLaw`, `BracketScan`, `Preprocessor` | cpplint.py: the two bracket scanners with their heuristics for angle brackets, proved against the bracket grammar, against a count of the angle brackets, and against each other, and the stack of `#if` blocks. `RoleLaw` says which characters are read as brackets. |

Objects that the source updates in place are classes; a ghost field or function gives each its abstract value
(`contents`, `m`, `index`, `names`, `fed`), and the methods say how it changes. Loops stay loops. Lemmas about
the abstract values carry the results that span several operations.

Where a promise does not hold for every input, the exact condition is proved, and where it takes a particular
input to see it fail, that input is given:

- the last word of a text that ends in a letter is lost (`Words.AllRunsFoundIff`);
- two file names with one hash share an id (`DocTables.RegisterRoundTrips`); `Collisions.SecondNameIsLost` has two
  such names;
- the byte-order macro does not do nothing on a big-endian host, against its comment (`Layouts.NtohllLoadsIff`);
- a number that does not fit its field is not read back (`Layouts.DiskRoundTrip`);
- the checksum of a file of 4 GiB or more can leave bytes out (`FileIndexReaders.ChecksumBody`), and a change is
  detected exactly when it touches the others (`FileIndexReaders.DamageIsDetected`);
  `FileIndexReaders.UndetectedDamage` has two files that differ and are both accepted;
- a path that is handled a second time stops the program unless its present text cannot be indexed or shares no
  word hash with the earlier one (`FileCrawlers.HandledAgainIff`), for instance when the text is the same
  (`FileCrawlers.SameTextAgainStops`), and a run over any files stops exactly if two of them do that
  (`CrawlRuns.RunsThroughIff`);
- the index file holds exactly the names and words that were indexed if and only if the lengths of all fit in 16 bits
  (`IndexWriters.WriteIndex`), and no index file holds a longer one (`IndexRoundTrips.StoredNameIsShort`,
  `IndexRoundTrips.StoredWordIsShort`);
- the scans of cpplint.py undo each other for round, square and curly brackets. From an angle bracket they do exactly
  if the other end reads back to it (`ScanRoundTrips.ForthAndBackIff`, `ScanRoundTrips.BackAndForthIff`); in
  `BracketScan.AnglesNotThereAndBack` it does not, and in `BracketScan.SkippedEndReadsBack` it does although the scan
  back passes over the bracket that it starts at;
- an angle bracket that is part of an operator has no partner: the scan from it is the scan from the first bracket
  behind it (`ScanRoundTrips.EndFoundIff`), as `BracketScan.ShiftFindsNextBracket` shows for the second `<` of a shift.

The header hw1/HashTable.h:53-54 says that a resize multiplies the buckets by 3; the code (hw1/HashTable.c:491)
multiplies by 9, and the model follows the code. After writing the index table, hw3/fileindexwriter.cc:120 checks
the size of the first table again instead of that of the second; no table has size 0, so nothing depends on it.

A `Verify333` that fails stops the program. Where it cannot fail, that is proved: the method after it verifies
without a branch for the failure. Where a caller can make it fail, the model says when: a result `stopped` or `None`,
`null` from `FileIndexReaders.Open`, or a precondition.

## Model

| member | source | states |
|---|---|---|
| `LinkedLists.LinkedList.Push` | hw1/LinkedList.c:64-101 | the payload becomes the first of the sequence and the doubly linked shape holds again: no node twice, next and prev mutually inverse, both ends null-terminated, exact count |
| `LinkedLists.LinkedList.Pop` | hw1/LinkedList.c:103-134 | takes the first payload off and returns it; false, with nothing changed, exactly on the empty list |
| `LinkedLists.LinkedList.Append` | hw1/LinkedList.c:136-171 | the payload becomes the last of the sequence; shape and count are kept |
| `LinkedLists.LinkedList.Slice` | hw1/LinkedList.c:173-199 | takes the last payload off and returns it; false exactly on the empty list |
| `LinkedLists.LinkedList.Sort` | hw1/LinkedList.c:201-233 | the in-place bubble sort terminates for every list and every comparator that is a total preorder, and leaves the one stable sorted permutation; nodes, links and count are those of before |
| `LinkedLists.LinkedList.SwapWithNext` | hw1/LinkedList.c:217-229 | two neighbouring payloads change places while every node stays where it is linked |
| `LinkedLists.MakeIterator` | hw1/LinkedList.c:235-261 | NULL exactly for the empty list, and otherwise an iterator on the head or on the tail |
| `LinkedLists.LLIter.Next` | hw1/LinkedList.c:282-297 | moves to the successor, or stays and says so at the tail |
| `LinkedLists.LLIter.Prev` | hw1/LinkedList.c:312-327 | moves to the predecessor, or stays and says so at the head |
| `LinkedLists.LLIter.Delete` | hw1/LinkedList.c:339-391 | removes exactly the current payload and lands on the successor, on the predecessor after the tail, and on nothing when the list became empty; the other nodes are unlinked from nothing else |
| `LinkedLists.LLIter.InsertBefore` | hw1/LinkedList.c:393-418 | inserts directly before the current payload and stays on its node, also at the head |
| `StableSorts.SortPermutes` | hw1/LinkedList.c:201-233 | the sorted sequence has the same elements, each as often |
| `StableSorts.SortSorts` | hw1/LinkedList.c:201-233 | no element stands out of order before a later one, in either direction |
| `StableSorts.SortIsStable` | hw1/LinkedList.c:201-233 | elements that compare equal keep their original order |
| `StableSorts.StableSortIsUnique` | hw1/LinkedList.c:201-233 | no other sequence is sorted, has the same elements and keeps every class of equal elements in order, so the sort is fully determined |
| `StableSorts.SwapKeepsSort` | hw1/LinkedList.c:217-229 | a bubble-sort exchange does not change what the list sorts to |
| `StableSorts.SwapRemovesInversion` | hw1/LinkedList.c:217-229 | a bubble-sort exchange removes exactly one inversion, which is why the sort stops |
| `HashTables.AllocateHashTable` | hw1/HashTable.c:28-73 | NULL exactly for zero buckets, and otherwise an empty table whose buckets are chains of their own |
| `HashTables.HashTable.Lookup` | hw1/HashTable.c:236-264 | return code and pair are those of the map |
| `HashTables.HashTable.Insert` | hw1/HashTable.c:163-234 | the table becomes the map with the key set: code 1 for a new key, 2 and the old pair for a replaced one; each pair is in bucket key mod buckets, no key twice, the element count is the map size. As long as no product of bucket counts overflows its 32 bits, the bucket count grows by 9 exactly at load factor 3 and no more than 3 pairs per bucket are kept |
| `HashTables.HashTable.Remove` | hw1/HashTable.c:266-300 | the table becomes the map without the key; code and pair are those of the map, every other chain and every other node stay |
| `HashTables.HashTable.Resize` | hw1/HashTable.c:482-534 | the map is unchanged, for every bucket count, also when the new one overflows and the inserts into the new table resize that in turn; the recursion through Insert terminates, because the new table always has fewer pairs |
| `HashTables.HashTable.CopyNext` | hw1/HashTable.c:506-517 | copying the next pair finds its key absent (code 1) and leaves the new table with one more pair; unless a bucket count overflowed, it does not resize it |
| `HashTables.HashTable.TakeOver` | hw1/HashTable.c:522-531 | exchanging the two records gives the old handle the new buckets with the same map |
| `HashTables.HashTable.ItemsListMap` | hw1/HashTable.c:302-454 | the chains one after the other list every pair of the map exactly once, and their total length is the element count |
| `HashTables.HashTable.InItsBucket` | hw1/HashTable.c:144-147 | on the heap: the list at index i of the bucket array has exactly the pairs of the map whose key is i modulo the bucket count |
| `HashTables.ChainContainsKey` | hw1/HashTable.c:149-161 | the iterator stops at the first pair with the key and returns it, or reports that there is none |
| `Chains.AddPair` | hw1/HashTable.c:163-234 | a pair with a new key, put at the head of the chain of its bucket, extends the map that the chains hold |
| `Chains.DropPair` | hw1/HashTable.c:266-300 | unlinking one pair from its chain removes exactly its key from the map that the chains hold |
| `Chains.KeyInItsChain` | hw1/HashTable.c:149-161 | a key is in the map exactly when the one chain that the operations search has it |
| `Chains.InItsChain` | hw1/HashTable.c:144-147 | every pair that the chains hold is in the chain with the number of its key modulo the number of chains, and nowhere else |
| `HashTables.HTIter.constructor` | hw1/HashTable.c:302-343 | a fresh iterator has every pair still to visit, and stands on the first if there is one |
| `HashTables.HTIter.Next` | hw1/HashTable.c:385-427 | steps to the next pair in chain order, across any number of empty buckets; 0 exactly when it was the last |
| `HashTables.HTIter.PastEnd` | hw1/HashTable.c:429-438 | true exactly when no pair is left to visit |
| `HashTables.HTIter.Get` | hw1/HashTable.c:440-454 | returns the first of the pairs still to visit |
| `HashTables.HTIter.FindNextNonEmptyBucket` | hw1/HashTable.c:374-383 | finds the next chain that is not empty, or that there is none |
| `HashTables.HTIter.Delete` | hw1/HashTable.c:456-480 | removes the current pair from the table and returns it; what is left to visit is exactly the rest, and the iterator is on a live node although the chain was edited under it |
| `TableRuns.RunAll` | hw1/HashTable.c:163-300 | every run of insertions, lookups and removals from a fresh table, through any number of resizes, answers like a map and ends with a table that lists exactly that map |
| `Fnv.FNVHash64` | hw1/HashTable.c:108-130 | the loop computes the fold of xor and multiplication modulo 2^64 |
| `Fnv.StepLosesNothing` | hw1/HashTable.c:116-127 | one step can be undone from the state or from the octet, since the odd prime has an inverse |
| `Fnv.OneOctetChangesHash` | hw1/HashTable.c:108-130 | buffers of equal length that differ in exactly one octet never have the same hash |
| `DocTables.DocTable.RegisterDocumentName` | hw2/doctable.c:57-110 | a known name keeps its id and a new one gets the next; both maps stay inverse and ids are exactly 1..max_id |
| `DocTables.DocTable.LookupDocumentName` | hw2/doctable.c:112-130 | the id under which the hash of the name is registered, or 0 |
| `DocTables.DocTable.LookupDocID` | hw2/doctable.c:132-148 | the name with the id, or nothing for an id never given out |
| `DocTables.MapsAreInverse` | hw2/doctable.c:57-148 | the two maps are mutually inverse on exactly the ids 1..max_id |
| `DocTables.RegisterRoundTrips` | hw2/doctable.c:57-148 | looking up the id that a registration returned gives the name back if and only if the name was registered already or no registered name has its hash |
| `Collisions.SecondNameIsLost` | hw2/doctable.c:57-148 | a failing input: the file names 7mohtcOFVz and c1E51sSEyx have the same 64-bit hash, so registering the second after the first returns the id of the first, and that id gives the first name |
| `DocTables.RegisterIsIdempotent` | hw2/doctable.c:57-110 | registering a second time changes nothing |
| `DocTables.EveryRunRoundTrips` | hw2/doctable.c:57-148 | over every run of registrations without hash collisions the table holds each name once and both lookups round-trip |
| `Words.RunsAreMaximal` | hw2/fileparser.c:196-270 | the scan finds exactly the maximal runs of letters that end before the end of the text |
| `Words.AllRunsFoundIff` | hw2/fileparser.c:239-269 | every maximal run is found if and only if the text does not end in a letter: a run that reaches the end of the buffer is not recorded |
| `Words.RecordedPositions` | hw2/fileparser.c:273-337 | each word hash maps to exactly the start offsets of its runs, in the order of the text |
| `Words.StartsAscend` | hw2/fileparser.c:196-337 | the offsets of a word are strictly ascending |
| `Words.OnePositionPerRun` | hw2/fileparser.c:196-337 | the lengths of all position lists add up to the number of runs |
| `Words.EveryWordIndexed` | hw2/fileparser.c:196-337 | without collisions among the words of the text, each word is stored under its own lower-case spelling with exactly the offsets where it stands |
| `FileParsers.LoopAndInsert` | hw2/fileparser.c:196-270 | the loop over the buffer it lower-cases and cuts in place leaves the table of all runs; in the buffer every byte from 65 to 90 is 32 more, every byte from 97 to 122 is as it was, the byte behind a letter that is no letter itself is 0, and no other byte changed |
| `FileParsers.WordTable.AddToHashTable` | hw2/fileparser.c:273-337 | a known word gains a position at the end of its list, a new one gets an entry of its own |
| `FileParsers.BuildWordHT` | hw2/fileparser.c:137-190 | a table exactly for a text whose bytes are all from 1 to 127 and in which a letter is followed by something else; it is the table of its words |
| `TextLaws.StandsIff` | hw2/fileparser.c:239-269 | a word is recorded at a position if and only if the bytes there are its letters or 32 less, with no letter before them and something that is no letter behind them |
| `TextLaws.StoredInLowerCase` | hw2/fileparser.c:239-269 | every word that a table stores has bytes from 97 to 122 only, and at least one |
| `TextLaws.CaseDoesNotMatter` | hw2/fileparser.c:239-269 | two texts that differ only in the case of letters have the same word table and the same places of every word |
| `TextLaws.HelloWorld` | hw2/fileparser.c:239-269 | in "Hello world " the word hello stands at 0 and the word world at 6, and nowhere else |
| `FileCrawlers.Drain` | hw1/HashTable.c:456-480 | deleting from a fresh iterator until the table is empty yields every pair exactly once |
| `FileCrawlers.MoveWords` | hw2/filecrawler.c:171-198 | the drain loop empties the word table into the index: every word of the file gains a posting for the document, no other posting changes, a word keeps the spelling it was first seen in, and each list has one owner throughout; the program stops exactly if the document is under one of the words already |
| `FileCrawlers.MoveWord` | hw2/filecrawler.c:174-198 | one turn of the loop keeps the index that is being built |
| `FileCrawlers.HandleFile` | hw2/filecrawler.c:156-203 | for any path and any text: a file that cannot be parsed changes nothing; any other gets an id for its path, the old one if the hash is known, and all its words move into the index under that id, or the program stops, exactly if one of them is there already |
| `FileCrawlers.HandledAgainIff` | hw2/filecrawler.c:156-203 | a path that was handled before is handled again without stopping the program if and only if its present text cannot be indexed or shares no word hash with the earlier one |
| `FileCrawlers.SameTextAgainStops` | hw2/filecrawler.c:156-203 | a failing input: the same text again under the same path |
| `FileCrawlers.HandleNext` | hw2/filecrawler.c:156-203 | a path that was not handled before never stops the program, and its text becomes the next document; this is the invariant of every run |
| `CrawlRuns.CrawlFiles` | hw2/filecrawler.c:35-75 | from two empty tables, the loop over any files builds the document table and the index of the files that can be parsed, each under the id of its path, or stops as RunsThroughIff says; for paths with different hashes it never stops |
| `CrawlRuns.RunIndexHolds` | hw2/filecrawler.c:156-203 | over every run: the index has a document under a word hash exactly if some file with the id of the document has the word |
| `CrawlRuns.RunsThroughIff` | hw2/filecrawler.c:156-203 | a run over any files goes through if and only if no two of them that can be indexed share a word hash although the hashes of their paths are the same |
| `FileCrawlers.IndexHolds` | hw2/filecrawler.c:156-203 | over every run of files: the index has document d under a word hash exactly when the text of d has the word, with the same positions |
| `MemIndexes.MemIndex.AddPostingList` | hw2/memindex.c:68-135 | the index gains one posting and keeps every other one, a new word is stored in its spelling and a known one keeps the one it has; the nested tables and lists stay apart. The program stops, with nothing changed, exactly if the document is under the word already |
| `MemIndexes.MemIndex.ProcessQuery` | hw2/memindex.c:137-291 | NULL exactly when the query is empty or no document has all words; otherwise each document that has them exactly once, ranked by the sum of its position counts modulo 2^32, best first |
| `MemIndexes.MemIndex.CollectFirst` | hw2/memindex.c:167-205 | the list of the first word answers the one-word query |
| `MemIndexes.MemIndex.IntersectWith` | hw2/memindex.c:245-277 | the loop that deletes from the list it walks keeps exactly the results that have the word, with raised ranks, in order |
| `MemIndexes.MemIndex.IntersectNext` | hw2/memindex.c:250-277 | iteration j looks at original result j, also after deletions at the head, in the middle, at the tail or of the only element |
| `Queries.KeepAnswers` | hw2/memindex.c:219-277 | keeping the results that have one more word answers the query with one more word |
| `Queries.MatchesOneMore` | hw2/memindex.c:219-277 | how one more word narrows the matches and raises the rank modulo 2^32 |
| `Queries.PermutedAnswers` | hw2/memindex.c:288-291 | sorting an answer leaves it an answer |
| `Queries.AnswersAgree` | hw2/memindex.c:137-291 | any two answers to a query have the same documents with the same ranks |
| `Queries.EmptyAnswer` | hw2/memindex.c:137-291 | an answer is empty exactly when no document matches |
| `SearchEngine.TableCountsPlaces` | hw2/fileparser.c:196-337 | if no word of the text is confused with w, the table has w exactly when w stands somewhere, with one position per place |
| `SearchEngine.SearchIsCorrect` | hw2/memindex.c:137-291 | from text to result: a document is found exactly when its text has every query word, and its rank is the number of places where they are spelled out, in either case, modulo 2^32 |
| `SearchEngine.Search` | hw2/memindex.c:137-291 | the same of MIProcessQuery on an index that any run of HandleFile built, NULL exactly when no text has all words |
| `Registers.CRC32Reflect` | hw3/fileindexutil.cc:29-41 | the loop computes the mirror image of the c low bits |
| `Registers.MirrorIsReverse` | hw3/fileindexutil.cc:29-41 | the mirror image of n bits is the top of the full 32-bit reversal, for every n |
| `Registers.ReverseTwice` | hw3/fileindexutil.cc:29-41 | reversing twice gives the number back |
| `Crc32.Initialize` | hw3/fileindexutil.cc:71-86 | entry i of the table is eight bitwise steps on the octet i |
| `Crc32.EntryIsEightSteps` | hw3/fileindexutil.cc:77-85 | reflecting, dividing highest power first and reflecting again is eight steps lowest bit first |
| `Crc32.StepsMirror` | hw3/fileindexutil.cc:79-83 | a division step and the step of the code in section 8 of RFC 1952 are mirror images |
| `Crc32.CRC32.FoldByteIntoCRC` | hw3/fileindexutil.cc:57-61 | one table lookup feeds the eight bits of the byte, so the state is the bitwise register of everything fed |
| `Crc32.FoldIsEightSteps` | hw3/fileindexutil.cc:57-61 | shift, lookup and xor equal eight single-bit steps, for every state and every byte |
| `Crc32.CRC32.GetFinalCRC` | hw3/fileindexutil.cc:63-69 | returns the bitwise CRC-32 of the bytes fed, the same on every further call |
| `CrcProperties.ShiftDivides` | hw3/fileindexutil.cc:71-86 | shifting a message through the register is schoolbook division of polynomials over GF(2) |
| `CrcProperties.ChecksumIsRemainder` | hw3/fileindexutil.cc:43-86 | for every byte string the checksum is the complemented, reflected remainder of the message with its first 32 bits complemented and 32 zero bits appended, as ISO 3309 defines it |
| `CrcProperties.StepInjective` | hw3/fileindexutil.cc:57-61 | a step loses nothing of the state |
| `CrcProperties.ShortRunsDiffer` | hw3/fileindexutil.cc:57-61 | from one state, different runs of up to 32 bits lead to different states |
| `CrcProperties.BurstsAreDetected` | hw3/fileindexutil.cc:57-86 | every error burst of up to 32 bits, anywhere in a message of any length, changes the checksum |
| `CrcProperties.FourByteWindow` | hw3/fileindexutil.cc:57-86 | byte strings that differ only inside four consecutive bytes never have the same checksum |
| `Layouts.DiskRoundTrip` | hw3/filelayout.h:105-133 | a number written in disk format is read back in host format if and only if it fits the field |
| `Layouts.HostRoundTrip` | hw3/filelayout.h:105-133 | a field read in host format is written back as the same bytes |
| `Layouts.NtohllLoadsIff` | hw3/fileindexutil.h:43-46 | the 64-bit macro reads a field correctly on every little-endian host; on a big-endian host, where its comment says it does nothing, only if the two halves of the field are equal |
| `HashTableReaders.HashTableReader.constructor` | hw3/HashTableReader.cc:21-34 | reads the bucket count of a table that lies inside the image |
| `HashTableReaders.HashTableReader.LookupElementPositions` | hw3/HashTableReader.cc:72-121 | returns the element positions of the bucket hashKey mod bucket count, in order: as many big-endian numbers as the record at offset + 4 + 8 * (hashKey mod bucket count) says, from where it says; no read leaves the image and no offset wraps around |
| `DocIDTableReaders.DocIDTableReader.LookupDocID` | hw3/DocIDTableReader.cc:27-85 | finds a document exactly when the table stores it, with its positions in order |
| `DocIDTableReaders.DocIDTableReader.GetDocIDList` | hw3/DocIDTableReader.cc:87-149 | lists every document of the table exactly once, with the length of the list that LookupDocID returns for it |
| `DocIDTableReaders.WellFormedIff` | hw3/DocIDTableReader.cc:27-149 | an image stores some postings exactly when its elements lie inside it, each in the bucket of its document, and no bucket has a document twice |
| `DocIDTableReaders.PostingsAreUnique` | hw3/DocIDTableReader.cc:27-149 | an image stores at most one set of postings, so both readers are fully determined by it |
| `IndexTableReaders.IndexTableReader.LookupWord` | hw3/IndexTableReader.cc:34-101 | nullptr exactly for a word that is not stored, also when another word has its hash; otherwise a reader at the embedded table of the word |
| `DocTableReaders.DocTableReader.LookupDocID` | hw3/DocTableReader.cc:30-81 | finds a document exactly when the table stores it, with its file name |
| `FileIndexReaders.Open` | hw3/FileIndexReader.cc:25-81 | accepts an image if and only if the magic number is right, the sizes agree modulo 2^32 and, with validation, the checksum of the covered bytes is the stored one; otherwise the program stops. AcceptsIff says it in bytes |
| `FileIndexReaders.ChecksumBody` | hw3/FileIndexReader.cc:64-77 | reading 512 bytes at a time computes the checksum of everything behind the header, as a whole; the loop stops for every file length, and only for 4 GiB and more, in multiples of 512, does it leave bytes out |
| `FileIndexReaders.OctetValue` | hw3/FileIndexReader.cc:64-77 | what is fed to the CRC for a byte of the file is the number that the byte is |
| `CheckValues.CheckValue` | hw3/fileindexutil.cc:43-86 | the checksum of the ASCII digits 1 to 9 is 0xCBF43926, the check value of this CRC-32 |
| `CheckValues.AcceptsIff` | hw3/FileIndexReader.cc:25-81 | which images open, byte by byte: at least 16 bytes that begin with CA FE F0 0D, with sizes at 8 and 12 that agree with the length and, with validation, the checksum at 4 |
| `CheckValues.DigitsAccepted` | hw3/FileIndexReader.cc:25-81 | a file with the digits 1 to 9 behind its header is accepted with validation if and only if the checksum stored is CB F4 39 26 |
| `FileIndexReaders.DamageIsDetected` | hw3/FileIndexReader.cc:59-78 | for files of every length: an accepted image with up to four consecutive bytes changed behind the header is accepted again with validation if and only if the change is outside the bytes that the checksum loop reads |
| `FileIndexReaders.ShortFilesAreCovered` | hw3/FileIndexReader.cc:59-78 | below 4 GiB every such change is detected |
| `FileIndexReaders.UndetectedDamage` | hw3/FileIndexReader.cc:59-78 | a failing input: two files of 4 GiB and 16 bytes that differ in one byte are both accepted with validation |
| `QueryProcessors.CombineDocIDList` | hw3/QueryProcessor.cc:165-181 | the two nested loops compute the join of the two lists |
| `QueryProcessors.CombinedMembers` | hw3/QueryProcessor.cc:165-181 | the join has exactly the documents of both lists, once, with added ranks |
| `QueryProcessors.CombinedAnswers` | hw3/QueryProcessor.cc:131-153 | joining with the list of one more word answers the query with one more word |
| `QueryProcessors.AddQueryResult` | hw3/QueryProcessor.cc:183-197 | appends one named result per listed document that the document table knows |
| `QueryProcessors.QueryProcessor.constructor` | hw3/QueryProcessor.cc:58-77 | every index file is opened and its two tables kept |
| `QueryProcessors.QueryProcessor.ProcessIndex` | hw3/QueryProcessor.cc:104-158 | one index contributes the named documents of an answer to the query, none when a word is missing |
| `QueryProcessors.QueryProcessor.ProcessQuery` | hw3/QueryProcessor.cc:96-163 | the results are those of all indices together, in non-increasing rank order |
| `Engines.NamedPermutes` | hw3/QueryProcessor.cc:183-197 | naming documents does not depend on the order of the list |
| `Engines.EnginesAgree` | hw3/QueryProcessor.cc:96-197 | for one index file with the contents of an in-memory index and all documents registered, both engines return the same multiset of documents and ranks, for every query whose words are not confused with indexed ones |
| `Engines.QueryBoth` | hw3/QueryProcessor.cc:96-197 | the same of the two running engines: NULL on one side exactly when the other is empty, and both best first |
| `FileIndexWriters.WriteDocidDocname` | hw3/fileindexwriter.cc:144-178 | the element of a file name, of any length: id, 16-bit length and so many characters are where the layout has them, and nothing before them changed |
| `FileIndexWriters.WriteDocPositionList` | hw3/fileindexwriter.cc:194-246 | the element of a position list: id, count and every position in order |
| `FileIndexWriters.WriteWordDocSet` | hw3/fileindexwriter.cc:250-296 | the element of a word, of any length, written table first: header and the characters that the 16-bit length keeps, in front of it, leave the nested table intact |
| `FileIndexWriters.WriteBucket` | hw3/fileindexwriter.cc:380-438 | the position records point at the elements, which follow one another without gap or overlap; each element written leaves the earlier ones intact |
| `FileIndexWriters.WriteHashTable` | hw3/fileindexwriter.cc:443-495 | the whole table, empty buckets and nested tables included: bucket count, one record per bucket, and every bucket where its record says; the size returned is the number of bytes |
| `FileIndexWriters.TableFrame` | hw3/fileindexwriter.cc:443-495 | a table stays written as long as its own bytes do |
| `IndexRoundTrips.NamesStored` | hw3/fileindexwriter.cc:144-187 | the document table that was written is one that the reader of file names accepts, with exactly what the 16-bit lengths keep of the names |
| `IndexRoundTrips.NamesStoredIff` | hw3/fileindexwriter.cc:144-187 | it holds the names themselves if and only if the length of each fits in 16 bits |
| `IndexRoundTrips.PostingsStored` | hw3/fileindexwriter.cc:194-246 | a posting table that was written is one that its reader accepts, with exactly the positions of exactly the documents |
| `IndexRoundTrips.WordsStored` | hw3/fileindexwriter.cc:250-306 | an index table with words of such lengths that was written is one that its reader accepts, with exactly the words, each with its postings |
| `IndexRoundTrips.WordsStoredIff` | hw3/fileindexwriter.cc:250-306 | the index table that was written holds the words if and only if the length of each fits in 16 bits |
| `IndexRoundTrips.StoredWordIsShort` | hw3/fileindexwriter.cc:250-296 | no image whatsoever stores a word of 65536 bytes or more |
| `BytesOnDisk.NameOnDisk` | hw3/filelayout.h:77-109 | a table of names has, in the record of an id modulo the bucket count, a position with the id, the length of the name and its characters |
| `BytesOnDisk.PostingOnDisk` | hw3/filelayout.h:77-140 | a table of postings has, in the record of the id of a document modulo the bucket count, a position with the id, the number of positions and every position, big-endian |
| `BytesOnDisk.WordOnDisk` | hw3/filelayout.h:77-140 | a table of words has, in the record of the hash of a word modulo the bucket count, a position with the length of the word, its characters, and the table of its postings right behind them |
| `BytesOnDisk.FileOnDisk` | hw3/filelayout.h:49-64 | in an index file the names are in a table at 16, and the words in a table behind it, whose place is the size of the first |
| `Snapshots.TableChains` | hw3/fileindexwriter.cc:443-495 | the loop over the buckets and the chains of a table on the heap sees exactly its pairs |
| `Snapshots.TakeWords` | hw3/fileindexwriter.cc:299-306 | what the writer finds on the heap under each bucket are the words of the index, each in its spelling with its postings, in the bucket of its hash |
| `IndexWriters.WriteHeader` | hw3/fileindexwriter.cc:308-350 | the checksum of everything behind the header and the header itself; the file is accepted with validation, and the tables are as before |
| `IndexWriters.WriteTables` | hw3/fileindexwriter.cc:93-140 | the file holds both tables and opens; the magic number is the commit record: of all the contents that the file had during the run, only the last is accepted |
| `IndexWriters.WriteIndex` | hw3/fileindexwriter.cc:93-140 | for any document table and index on the heap at which the writer does not stop: the file opens with validation, holds what 16 bits keep of the names, and holds exactly the registered names and the indexed words with their postings if and only if all lengths fit in 16 bits; before the last write no content of it opens at all |
| `IndexWriters.WrittenContents` | hw3/fileindexwriter.cc:93-140 | the file and the index have the same postings, by word in the one and by hash in the other |
| `IndexWriters.WriteAndQuery` | hw3/fileindexwriter.cc:93-140 | writing the index, opening the file and asking the query processor gives the documents and the ranks of MIProcessQuery, NULL on one side exactly when the other is empty |
| `DiskSearches.SearchOnDisk` | hw3/QueryProcessor.cc:96-163 | from the texts to the result of a search of the written file: the results are the files whose text has every query word, each once, with the number of places where the words stand as rank modulo 2^32, highest rank first |
| `Brackets.BalancedIffRun` | cpplint.py:1519-1594 | a text is balanced by the bracket grammar exactly when the stack is empty again at its end |
| `Brackets.Dual` | cpplint.py:1519-1715 | a text closes exactly the brackets of a stack if and only if the backward run over it ends with their closers |
| `Brackets.ForwardFindsMatch` | cpplint.py:1519-1594 | from an opening bracket the forward scan stops after n characters if and only if its match by the grammar is there |
| `Brackets.BackwardFindsMatch` | cpplint.py:1641-1715 | from a closing bracket the backward scan stops after n characters if and only if its match by the grammar is there |
| `RoleLaws.MatchingKinds` | cpplint.py:1519-1715 | brackets that match are ( and ), [ and ], or { and } |
| `BracketScan.FindEndOfExpressionInLine` | cpplint.py:1519-1594 | one line, read with the heuristics for shifts, arrows and operators: the position past the end found, nothing, or the stack of what is still open |
| `BracketScan.FindStartOfExpressionInLine` | cpplint.py:1641-1715 | one line from the right, read with its own heuristics: the position of the start found, nothing, or the stack of what is still open |
| `RoleLaws.OperatorIff` | cpplint.py:1545-1575 | when a prefix of the line ends in the word operator and white space: eight characters somewhere are operator, no word character is before them, and only white space behind them |
| `RoleLaws.ForwardRole` | cpplint.py:1519-1594 | every character as the forward scan reads it, said about the characters of the line: a < opens unless a < or the word operator is before it, a > closes unless a - is before it or the word operator is in front of the character before it, and nothing else is an angle bracket |
| `RoleLaws.ForwardWeight` | cpplint.py:1519-1594 | what ScanCounts and EndIff count from the left: one up for a < that opens arguments, one down for a > that closes them and for the second < of a shift |
| `RoleLaws.BackwardRole` | cpplint.py:1641-1715 | every character as the backward scan reads it, said about the characters of the line: a > counts unless a - is before it, it is a >= between white space, or the word operator and white space are before it; otherwise it and the character before it are passed over, like both < of a shift |
| `RoleLaws.BackwardWeight` | cpplint.py:1641-1715 | what ScanCounts and StartIff count from the right: one up for a > that may close arguments, one down for a < with no < before it |
| `RoleLaws.ShiftOrAtMostIff` | cpplint.py:1597-1638 | no scan begins where the line goes on with << or <= |
| `RoleLaws.ArrowIsPassedOver` | cpplint.py:1519-1753 | in "<a->b>" the end found from the < is behind the last >, the start found from the last > is the <, and from the > of the arrow nothing is found |
| `LineScans.RoundLineForward` | cpplint.py:1519-1594 | whatever angle brackets, operators and semicolons a line has, a scan that began at a round, square or curly bracket reads it as if they were plain text |
| `LineScans.RoundLineBackward` | cpplint.py:1641-1715 | the same from the right, although there the operators are recognised differently and two characters are skipped at once |
| `AngleScans.ScanCounts` | cpplint.py:1519-1715 | the stack as a count: a scan that began at an angle bracket is still looking for its partner exactly as long as the other brackets nest, no statement ended outside them, and the angle brackets outside them have not counted down to it |
| `AngleTexts.ArgumentsIff` | cpplint.py:1519-1715 | nesting and statements are the same from both sides, so only the count of the angle brackets depends on the direction |
| `ArgumentScans.EndIff` | cpplint.py:1597-1638 | over any lines, from a < that may open template arguments: the end found is e if and only if the character before e closes, the brackets nest and no statement ends in between, and the angle brackets outside the other brackets count up, as the forward scan reads them |
| `ArgumentScans.StartIff` | cpplint.py:1718-1753 | the same for a > that may close template arguments, as the backward scan reads them |
| `ScanRoundTrips.EndFoundIff` | cpplint.py:1597-1638 | over any lines, from any character: CloseExpression finds the end of the first bracket from there on and nothing else; from a character that is no opening bracket, and from a < in front of < or =, it finds nothing |
| `ScanRoundTrips.StartFoundIff` | cpplint.py:1718-1753 | over any lines, from any character: ReverseCloseExpression finds the start for the first bracket from there back and nothing else |
| `ScanRoundTrips.ForthAndBackIff` | cpplint.py:1597-1753 | from a < to its end and back is where one started if and only if the scan back, from the first bracket that it does not pass over, reads angle brackets that count down to the < and reads it as an opening one |
| `ScanRoundTrips.BackAndForthIff` | cpplint.py:1597-1753 | the same from a > to its start and forth |
| `ScanRoundTrips.SameReadingReturns` | cpplint.py:1597-1753 | one gets back whenever every angle bracket in between, outside the other brackets, is read as the same from both sides |
| `BracketScan.CloseExpression` | cpplint.py:1597-1638 | over any lines, from any character: exactly what EndFoundIff says. From a round, square or curly bracket that is the position just past the matching bracket, and (number of lines, -1) if and only if there is none, whatever angle brackets are around. From a < that is neither behind another < nor behind the word operator, the character before it is a > with no - before it and no word operator in front of that |
| `BracketScan.ReverseCloseExpression` | cpplint.py:1718-1753 | over any lines, from any character: exactly what StartFoundIff says. From a round, square or curly bracket that is the position of the bracket that it closes, and (0, -1) if and only if there is none. From a > of no arrow, no comparison and no operator, it is a < with no < before it |
| `FileScans.MatchIsUnique` | cpplint.py:1519-1753 | a bracket has at most one match, from either side |
| `BracketScan.ThereAndBack` | cpplint.py:1597-1753 | over any lines, from any character: from a round, square or curly bracket to its match and back is where one started, in both directions; from an angle bracket if and only if the other end reads back to it |
| `BracketScan.AnglesNotThereAndBack` | cpplint.py:1519-1753 | a failing input for angle brackets: in "< >= c" the forward scan ends at a > from which the backward scan finds nothing |
| `BracketScan.SkippedEndReadsBack` | cpplint.py:1519-1753 | in "<operatorX> >= b" the scan back passes over the > that it starts at and still returns to the <, so that the condition cannot be that the > may close |
| `BracketScan.ShiftFindsNextBracket` | cpplint.py:1597-1638 | a failing input: from the second < of "<<(a)" the position past the ) is returned |
| `Preprocessor.NestingState.UpdatePreprocessor` | cpplint.py:2540-2594 | an #if pushes a record with the nesting stack as it is; an #else or #elif gives the nesting stack back that the innermost #if saved and, the first time, saves the present one; an #endif gives that one back, if there is one, and drops the record; a stray directive does nothing. So the object follows the value-level step |
| `Preprocessor.NestingState.ProcessFile` | cpplint.py:5946-5949 | over any file, the object that is updated line by line ends where the value-level run ends |
| `Preprocessor.NestedRun` | cpplint.py:2540-2594 | after a well-nested file the nesting stack is what the lines outside #else and #elif branches made it, and every open block is as it was |
| `Preprocessor.BranchesDoNotMatter` | cpplint.py:2540-2594 | deleting every #else and #elif branch of a well-nested file changes nothing |
| `Preprocessor.OpenBranch` | cpplint.py:2561-2577 | inside an #else or #elif branch, after any earlier ones, the nesting stack is that from before the #if with the effect of the lines of the branch, the blocks around are as they were, and the effect of the first part is kept for the #endif |
| `Preprocessor.StrayDirectives` | cpplint.py:2556-2592 | outside all blocks, #else, #elif and #endif lines leave the nesting stack as it is, however many there are |
| `Preprocessor.BlocksAreCounted` | cpplint.py:2540-2594 | for any file at all, the depth of the block stack is a counter of #if and #endif that stops at zero |

## Left out

- Allocation failure, `Free*` functions and ownership of memory: every allocation succeeds and nothing is freed.
- LinkedLists.LinkedList.Push: element counts are unbounded, so lists of 2^32 or more elements, whose 32-bit count would wrap around, are modelled without the wrap.
- LinkedLists.LinkedList.Sort: the comparator is a pure function with an unbounded result, so negating the smallest `int` does not overflow, and for a comparator that is not a total preorder nothing is claimed.
- HashTables.HashTable.Insert: the element count fits in 32 bits before and after, where the source would wrap it around; the products of bucket counts do wrap around here as in the source.
- HashTables.HashTable.Resize: giving up on a resize for lack of memory.
- LinkedLists.LLIter.SetPayload: search results are values in the list nodes, overwritten in place, where the source stores pointers to records and changes the record.
- FileParsers.BuildWordHT: takes the file contents, with the terminator that ReadFile appends, as an array of less than 2^32 bytes, so that its offsets fit their 32 bits.
- FileCrawlers.HandleFile: requires element counts that fit in 32 bits. What the tables hold when the program has stopped is not said.
- CrawlRuns.CrawlFiles: the files come as a list of paths and texts, in the order in which the source meets them; reading directories is not part of the model. Their sizes, with one more each, add up to less than 2^32, so that all counts fit in 32 bits.
- MemIndexes.MemIndex.AddPostingList: requires element counts that fit in 32 bits.
- DocTables.DocTable.RegisterDocumentName: a new name requires that the number of names still fits in 32 bits.
- FileParsers.LoopAndInsert: letters are the 52 of ASCII, as `isalpha` has them in the C locale.
- Text encodings: names, words and queries are sequences of bytes; the lower-casing of query words happens in the shells, which are not part of this model.
- hw3/filelayout.h: the records are read field by field as values; that `toHostFormat` overwrites a struct in place is not modelled. The readers are those of a little-endian host.
- IndexWriters.WriteIndex: names and words whose length modulo 2^16 is not 0 and at least one position per posting (the source stops at others), and a file of less than 4 GiB (the source truncates offsets). Each table is first walked as it lies on the heap and then written, where the source does both at once. Failing writes, `fsync`, and closing and removing the file are not part of the model; a write is one step, so a header of which only some bytes reach the disk is not among the contents that CommittedLast speaks of.
- IndexWriters.WriteAndQuery: requires lengths that fit in 16 bits, without which the file holds other words than the index.
- DiskSearches.SearchOnDisk: requires the same of the paths and the words, and that no query word has the hash of a different word of the texts.
- FileIndexWriters.WriteDocPositionList: a position is a 32-bit number; hw3/fileindexwriter.cc:226 lets the list iterator store a payload, which is as wide as a pointer, into the 4-byte record of a position, and that it writes past the record is not modelled.
- HashTableReaders.HashTableReader.LookupElementPositions: images that are not well formed, on which the source stops the program or reads garbage, are excluded by the precondition; images have less than 2^32 bytes, as their 32-bit offsets demand.
- FileIndexReaders.Open: opening and measuring the file; a file is a sequence of bytes with a position. A file that is rejected gives `null` where the source stops the program.
- Crc32.Initialize: each CRC object gets its own table, where the source fills one static table on first use (hw3/fileindexutil.cc:44-50).
- QueryProcessors.SortResults: `std::sort` promises no order among equal ranks, and its contract here does not either.
- hw4, the shells, the `main` programs, hw3fsck, clint.py and the gtest headers.
- BracketScan.CloseExpression: that what is found for a `<` is the `>` that a C++ compiler would pair is not claimed. White space and word characters are those of ASCII. The line text that both functions return besides the position is left out.
- Preprocessor.NestingState.Update: which line is which directive is given, not matched by regular expressions, and any other line is an arbitrary function on the nesting stack. What the source still does with a line that is a directive, such as counting its parentheses, is a line of its own behind the directive.
- The rest of cpplint.py: style checks, cleansing of comments and strings, command line.
