# kmod: from module dependencies to load order

kmod computes once what every kernel module depends on (depmod), stores the result in a binary
trie, and later reads that trie to decide which modules to load and in which order (libkmod,
modprobe). This project models that pipeline in Dafny and proves that it is right, together with
the configuration parsers and the data structures beneath it.

The four components:

* **The index.** `IndexBuilder` is depmod's trie of heap nodes, split in place by insertion;
  `IndexWriter` turns it into bytes; `MmReader`/`MmWild`/`Dump` and `FileReader` are the two readers.
  `PatriciaTrie` is the trie as a value and the multimap it stands for, `Layout` the file format,
  `Glob` is `fnmatch` with flags 0 (section 2.13 of the Shell Command Language volume of POSIX.1-2017,
  without the rules for slashes and leading periods), `Patterns` says what a pattern matches from the pieces it is
  written with, `WildSpec`/`WildSearch` compare the wildcard walk with brute force, `Escapes` says which keys it reads as `fnmatch` does, `Listing` is the sorted listing.
  `IndexLaws` puts writer and readers together: all its statements are about the entries that were inserted,
  in the order they were inserted. `SmallIndex` takes one of them down to the bytes of the file and of its dump.
* **The dependency calculation.** `Depmod` and `TopologicalSort` (Kahn's algorithm over 16-bit arrays),
  `Closure` (the depth-first closure), over the graphs of `Graphs`.
* **The probe list and the insertion loop.** `ProbeList` with the invariant in `ProbeState` and the order of the list
  in `ProbeOrder`, and `Insertion`.
  `Depline` is the text line between depmod and libkmod. `Pipeline` composes everything: modules go in
  with their symbol dependencies, loaded modules come out, through the bytes of the index file.
* **The parsers.** `Kcmdline` (with `KcmdlineSpec`) rewrites the kernel command line in its own buffer, and
  `KcmdlineLines` says what it takes from a line that is written word by word;
  `Softdep` counts and then copies. `Tokens` is the splitting they share.

Beside them: `HashTable`, `CircularList` with `ConfFiles`, `ElfSymbols` with the files of `ElfImage`, `Backoff`.

Some results say where the code does not do what one would expect, and exactly when.

* The wildcard walk visits a wildcard arc a second time when the query itself has that character, so a value can be
  returned twice: `WildSearch.ExactIffPlainQuery`. It compares literally where `fnmatch` would take a backslash for an
  escape: `Escapes.KeyReadAlikeIff`.
* Offsets in the index have 28 bits, and depmod does not check that they suffice: `Layout.FileLinkedIff` is the exact
  condition, `IndexLaws.SecondKeyLost` an index that misses it and loses a key, `IndexLaws.OneKeyFits` one of any size
  that meets it.
* A line of soft dependencies that starts with a single white space character loses its first marker:
  `Softdep.ParsedIff`, `Softdep.HiddenMarker`.
* `libkmod/libkmod.h:744-747` says of `KMOD_PROBE_APPLY_BLACKLIST_ALL` that the call returns early if the module or any
  of its dependencies is blacklisted and not in the kernel. The code does so for the module itself; a blacklisted
  dependency is only taken off the list, and the modules that need it are tried without it. The model follows the code;
  `Insertion.KeptIff` says when it does what is documented, `Insertion.LoadWithoutDependency` shows a call that does not.
* `Depline.RoundTripIff` says which paths survive a dependency line, and `IndexLaws.ReadersCompared` when the two readers
  give different answers for one key; `Depline.ColonSplits` and `IndexLaws.ReadersDiffer` are inputs for the other case.

Conventions. Strings are sequences of bytes without the terminator. Modules are numbers: the index in depmod's
array, or the place in libkmod's pool. Allocation succeeds. `Asked` (module `Text`) is a predicate that is always
true; a fact stated under it stays out of the proofs that do not name it, and means the same.

## Model

| member | source | states |
|---|---|---|
| `PatriciaTrie.AddValueSorted` | tools/depmod.c:219-246 | inserting a value keeps the list ascending by priority |
| `PatriciaTrie.AddValueMultiset` | libkmod/libkmod-index.c:193-213 | insertion adds exactly one occurrence of the value and loses none |
| `PatriciaTrie.HeadIsLatestOfLeast` | tools/depmod.c:232-243 | the head of a list built by insertions is of least priority, the one inserted last among equals |
| `PatriciaTrie.SplitLookup` | tools/depmod.c:264-285 | splitting a node at any place of its prefix changes no key's values |
| `PatriciaTrie.InsertLookup` | tools/depmod.c:248-320 | one insertion adds one value to one key and leaves every other key alone, split or not |
| `PatriciaTrie.InsertWellFormed` | tools/depmod.c:248-320 | insertion keeps 7-bit arcs, sorted value lists and no empty subtries |
| `PatriciaTrie.BuildLookup` | tools/depmod.c:248-320 | after any run of insertions each key holds exactly the values inserted under it, in the order their insertions give |
| `IndexBuilder.IndexCreate` | tools/depmod.c:161-178 | a fresh root that is the empty index |
| `IndexBuilder.IndexAddValue` | tools/depmod.c:219-246 | the list after insertion, and 1 exactly if the text was in it, whatever its priority |
| `IndexBuilder.CommonPrefix` | tools/depmod.c:262-267 | how far prefix and key go together |
| `IndexBuilder.SplitRecord` | tools/depmod.c:268-285 | the node keeps the first part and one child, the copy takes the rest, values and children |
| `IndexBuilder.AddLeafRecord` | tools/depmod.c:295-314 | the new leaf, the widened child range, nothing else changed |
| `IndexBuilder.Walk` | tools/depmod.c:257-319 | the descending loop reaches the node where insertion and lookup of the key end |
| `IndexBuilder.IndexInsert` | tools/depmod.c:248-320 | the heap tree after the call stands for the trie after the insertion; 1 exactly if the pair was present; only the tree and two new nodes are touched |
| `Layout.TaggedParts` | tools/depmod.c:327-341 | OR-ing the flags never collides with an offset below 2^28: offset and all three flags can be read back |
| `Layout.OffsetReadBack` | libkmod/libkmod-index.c:691-700 | an offset can be read back from its word if and only if it is below 2^28 |
| `Layout.ImageSize` | tools/depmod.c:343-376 | the calculated total is the number of bytes emitted, for every subtree at every offset |
| `Layout.StoredChild` | tools/depmod.c:396-412 | the offset stored for a child is where its image starts, inside its parent's, for every trie whose nodes are within reach |
| `Layout.TableWord` | tools/depmod.c:424-428 | the words of the child table, one by one, as they stand in any file, within reach or not |
| `Layout.HoldsValue` | tools/depmod.c:430-446 | the values of a node, one by one, as they stand in the file |
| `Layout.CountWord` | tools/depmod.c:430-439 | the number of values as it stands in any file: its low 32 bits |
| `Layout.LinkedIff` | tools/depmod.c:383-455 | below any node written: all stored offsets lead to the children and all counts are right if and only if every node starts below 2^28 and no node has 2^32 values |
| `Layout.FileLinkedIff` | tools/depmod.c:457-476 | the same for the whole file: the exact condition under which it can be read back |
| `Layout.SmallFits` | tools/depmod.c:389-412 | a file below 2^28 bytes meets that condition |
| `Layout.FileStored` | tools/depmod.c:457-476 | header words and root image of the written file |
| `IndexWriter.CalculateSize` | tools/depmod.c:343-376 | fills in the size and the total of the node and of every node below it, and returns the size of the subtree's image |
| `IndexWriter.TreeUnique` | tools/depmod.c:343-376 | a heap node stands for one trie only, so sizes once filled in stay right |
| `IndexWriter.ChildTag` | tools/depmod.c:327-341 | the tagged offset of a child, from the node's fields |
| `IndexWriter.OffsetTable` | tools/depmod.c:389-412 | the child offsets computed from running sizes are those of the format |
| `IndexWriter.WriteTable` | tools/depmod.c:417-421 | the child range and the table of offsets, nothing without children |
| `IndexWriter.WriteOwn` | tools/depmod.c:415-446 | the bytes of the node itself |
| `IndexWriter.WriteNode` | tools/depmod.c:383-455 | the bytes emitted for a heap subtree are its image at the offset |
| `IndexWriter.IndexWrite` | tools/depmod.c:457-476 | the file is header plus image of the trie the heap tree stands for |
| `MmReader.ReadChars` | libkmod/libkmod-index.c:676-682 | the string at a position and the position behind it |
| `MmReader.ReadNode` | libkmod/libkmod-index.c:691-740 | a tagged offset within reach reads back the prefix, child range, table and values of the node written there; an offset that is a multiple of 2^28 reads nothing |
| `MmReader.ReadSlot` | libkmod/libkmod-index.c:838-853 | in any written file: the child on an arc, nothing if there is none or if it starts at a multiple of 2^28 |
| `MmReader.ReadChild` | libkmod/libkmod-index.c:838-853 | in a file whose nodes are within reach: the child on an arc if and only if the trie has it |
| `MmReader.Open` | libkmod/libkmod-index.c:771-807 | accepts exactly files with a whole header, the magic number and major version 2 |
| `MmReader.ReadValue` | libkmod/libkmod-index.c:684-688 | a value reads back, with the position behind it |
| `MmReader.SearchSeen` | libkmod/libkmod-index.c:905-956 | in any written file, for a key whose way can be followed: the first value of the key, where a child at a multiple of 2^28 is taken for absent |
| `MmReader.AllSeen` | libkmod/libkmod-index.c:905-956 | where all nodes are within reach, every key's way can be followed and nothing is taken for absent |
| `MmReader.Search` | libkmod/libkmod-index.c:905-956 | so there: the first value of the key, nothing if there is none |
| `Glob.StarMatches` | libkmod/libkmod-index.c:1000-1001 | fnmatch: a star matches any string |
| `Glob.LiteralPrefix` | libkmod/libkmod-index.c:1000-1001 | fnmatch: ordinary characters match themselves |
| `Glob.IndexMatchIsFnMatch` | libkmod/libkmod-index.c:1015-1025 | literal comparison up to the first wildcard, then fnmatch of the rest, is fnmatch of the whole |
| `Patterns.BracketMatches` | libkmod/libkmod-index.c:1000-1001 | fnmatch: a bracket expression, written with characters, escapes, collating symbols, ranges, equivalence and character classes, matches one byte: one that its elements denote, or with a mark in front one that they do not |
| `Patterns.RangeMatches` | libkmod/libkmod-index.c:1000-1001 | `[lo-hi]` matches a byte from lo to hi, `[!lo-hi]` any other one |
| `Patterns.MembersMatch` | libkmod/libkmod-index.c:1000-1001 | `[abc]` matches one of the bytes listed, `[!abc]` any other one |
| `Patterns.ClassMatches` | libkmod/libkmod-index.c:1000-1001 | `[[:name:]]` matches the bytes of the class in the POSIX locale, none if there is no such class |
| `Patterns.QuestionMatches` | libkmod/libkmod-index.c:1000-1001 | `?` matches any one byte |
| `Patterns.UnclosedMatches` | libkmod/libkmod-index.c:1000-1001 | an opening bracket without a closing one stands for itself |
| `Patterns.PatternMatches` | libkmod/libkmod-index.c:1000-1001 | a pattern written with these pieces matches exactly the strings put together from one that each piece stands for |
| `WildSpec.InsertHits` | tools/depmod.c:248-320 | an insertion adds its value to exactly the queries its key matches |
| `WildSpec.BuildHits` | tools/depmod.c:248-320 | brute force over the trie is brute force over the insertions |
| `WildSpec.HitsCounted` | libkmod/libkmod-index.c:1069-1078 | brute force counts each insertion of a value under a matching key once |
| `WildSearch.CollectedIsHits` | libkmod/libkmod-index.c:1008-1062 | for every query: what the walk collects is the matching keys plus the walk behind wildcard arcs the query names |
| `WildSearch.PlainQueryNoSurplus` | libkmod/libkmod-index.c:1029-1059 | a query without wildcard characters meets no arc twice |
| `WildSearch.CollectedIsBruteForce` | libkmod/libkmod-index.c:959-1078 | wildcard search is brute force with fnmatch over all insertions |
| `WildSearch.ExactIffPlainQuery` | libkmod/libkmod-index.c:1029-1059 | the walk finds each matching insertion once, on every index, if and only if the query has none of the three wildcard characters |
| `Escapes.KeyReadAlikeIff` | libkmod/libkmod-index.c:1015-1025 | for every stored key: the index reads it as fnmatch does, for all queries, if and only if no backslash stands before its first wildcard or nothing can match its remainder; a condition to compute |
| `Escapes.HopelessIff` | libkmod/libkmod-index.c:1000-1001 | fnmatch: nothing matches a pattern if and only if it has a backslash at its end or a bracket expression for no byte |
| `Escapes.LiteralKeyIffNoEscape` | libkmod/libkmod-index.c:1015-1025 | a stored key without wildcards is found as fnmatch would if and only if it has no backslash |
| `Escapes.EscapedPrefix` | libkmod/libkmod-index.c:1000-1001 | fnmatch: how the part before the first wildcard is read when it has escapes |
| `Escapes.DanglingPrefix` | libkmod/libkmod-index.c:1000-1001 | fnmatch: ... when its last backslash escapes the wildcard itself |
| `MmWild.InsertValue` | libkmod/libkmod-index.c:193-213 | the list with the value in front of the first of not smaller priority |
| `MmWild.WildWalk.AllValues` | libkmod/libkmod-index.c:959-971 | all values of a node added to the result, in stored order |
| `MmWild.WildWalk.All` | libkmod/libkmod-index.c:977-1005 | all keys at and below a node that fnmatch, the path buffer left as it was |
| `MmWild.WildWalk.Prefix` | libkmod/libkmod-index.c:1015-1025 | when the literal walk ends inside a prefix, and what it has collected then |
| `MmWild.WildWalk.Wildcards` | libkmod/libkmod-index.c:1029-1051 | the children on the three wildcard arcs |
| `MmWild.WildWalk.SearchNode` | libkmod/libkmod-index.c:1008-1062 | the result list grows by exactly what the walk collects |
| `MmWild.SearchWild` | libkmod/libkmod-index.c:1069-1078 | the result, ascending by priority |
| `Listing.RecordsLookup` | libkmod/libkmod-index.c:855-887 | the listing has under each key exactly the values a lookup finds, in stored order |
| `Listing.RecordsOrdered` | libkmod/libkmod-index.c:873-884 | keys are listed in byte order |
| `Listing.OrderedUnique` | libkmod/libkmod-index.c:855-887 | these two facts determine the listing |
| `Listing.DumpIsSortedListing` | libkmod/libkmod-index.c:855-887 | the listing of an index built by insertions |
| `Dump.WriteBuffer.Flush` | libkmod/libkmod-index.c:157-163 | all that waited reaches the descriptor |
| `Dump.WriteBuffer.Write` | libkmod/libkmod-index.c:165-181 | the output is the concatenation of all writes; the 4096-byte buffer is never left full |
| `Dump.PathBuffer.DumpValues` | libkmod/libkmod-index.c:863-871 | one line per value |
| `Dump.PathBuffer.DumpNode` | libkmod/libkmod-index.c:855-887 | the lines of the subtree, and the path buffer left as it was |
| `Dump.IndexDump` | libkmod/libkmod-index.c:889-903 | what reaches the descriptor is the rendered listing, with or without the alias prefix |
| `FileReader.ReadWords` | libkmod/libkmod-index.c:220-230 | the words at a position |
| `FileReader.ReadValues` | libkmod/libkmod-index.c:308-325 | the stored list put together anew, value by value |
| `FileReader.ReadNode` | libkmod/libkmod-index.c:256-334 | a tagged offset reads back the whole node, its values put together anew |
| `FileReader.ReadChild` | libkmod/libkmod-index.c:389-396 | the child on an arc if and only if the trie has it |
| `FileReader.Search` | libkmod/libkmod-index.c:445-497 | the first value of the list put together anew |
| `FileReader.FileWalk.AllValues` | libkmod/libkmod-index.c:500-509 | all values of a node added to the result |
| `FileReader.FileWalk.All` | libkmod/libkmod-index.c:515-546 | all keys at and below a node that fnmatch, the path buffer left as it was |
| `FileReader.FileWalk.SearchNode` | libkmod/libkmod-index.c:549-607 | the result list grows by exactly what the walk collects |
| `FileReader.SearchWild` | libkmod/libkmod-index.c:614-622 | the result, ascending by priority |
| `FileReader.HeadIsEarliestOfLeast` | libkmod/libkmod-index.c:315-324 | reading back reverses equal priorities: the head is the one inserted first |
| `IndexLaws.WriteIndex` | tools/depmod.c:2156-2197 | insertions on the heap and the write give the file of the inserted entries; an insertion returns 1 exactly if key and text were inserted before |
| `IndexLaws.SearchWritten` | libkmod/libkmod-index.c:946-956 | end to end: nothing exactly when the key was never inserted, otherwise the text of least priority, latest among equals |
| `IndexLaws.SearchWrittenFile` | libkmod/libkmod-index.c:487-497 | the same through the stream reader: earliest among equals |
| `IndexLaws.LatestUnique` | libkmod/libkmod-index.c:946-956 | the latest value of least priority is one particular insertion |
| `IndexLaws.EarliestUnique` | libkmod/libkmod-index.c:487-497 | and so is the earliest |
| `IndexLaws.ReadersCompared` | libkmod/libkmod-index.c:445-497 | the readers agree exactly when first and last inserted value of least priority have the same text; always under distinct priorities |
| `IndexLaws.ReadersDiffer` | libkmod/libkmod-index.c:315-324 | where they do not: two texts of one priority under one key, of which the mapped reader finds the second and the stream reader the first |
| `IndexLaws.SearchWildWritten` | libkmod/libkmod-index.c:1069-1078 | end to end: both readers return the same multiset, by priority; for queries without wildcards and keys without a backslash before their first wildcard, each value as often as it was inserted under a key that fnmatches the query |
| `IndexLaws.DumpWritten` | libkmod/libkmod-index.c:889-903 | end to end: every insertion listed once, keys in byte order, values by priority |
| `SmallIndex.WriteSmall` | tools/depmod.c:383-476 | the bytes of the file for the keys "c" and "cdx": magic number, version, every flag, big-endian words, whatever the characters and the text |
| `SmallIndex.DumpSmall` | libkmod/libkmod-index.c:855-903 | the bytes of its dump: a line with key, space and text for each of them, behind "alias " if asked for |
| `IndexLaws.OneKeyFits` | tools/depmod.c:396-412 | one key can always be read back, even with a text of 2^28 bytes or more |
| `IndexLaws.TwoKeysFitIff` | tools/depmod.c:396-412 | an index that cannot: two keys fit exactly as long as the first text is shorter than 2^28 - 31; at that length the offset stored for the second key reads as 0 |
| `IndexLaws.SecondKeyLost` | libkmod/libkmod-index.c:905-956 | at that length, through writer and reader: the search for the inserted second key finds nothing |
| `Depmod.ModuleTable.AddDependency` | tools/depmod.c:1002-1024 | a new dependency appended once, and the user counts kept right |
| `Depmod.ModuleTable.CalculateDependencies` | tools/depmod.c:1980-2049 | succeeds if and only if the graph is acyclic; then distinct numbers with every user before its dependency, and dependency lists in that order |
| `Depmod.ModuleTable.SortDependencies` | tools/depmod.c:1733-1743 | every list sorted, same elements, user counts still right |
| `Depmod.Populate` | tools/depmod.c:1997-2006 | the stack starts with exactly the unused modules |
| `Depmod.Sort` | tools/depmod.c:2008-2034 | the nested loops stay inside their 16-bit arrays and end in a final state of the sort |
| `Depmod.CountDownAll` | tools/depmod.c:2022-2034 | counting down never meets a zero, and stacks each module at most once |
| `Depmod.SortByIndex` | tools/depmod.c:1726-1731 | the list in ascending order of index |
| `TopologicalSort.PendingPositive` | tools/depmod.c:2026-2028 | a counter about to be decremented is positive, its module neither ordered nor stacked |
| `TopologicalSort.SortingFits` | tools/depmod.c:1984-1992 | order and stack together never exceed the number of modules |
| `TopologicalSort.FullOrder` | tools/depmod.c:2008-2034 | a full order is a topological numbering |
| `TopologicalSort.ShortOrder` | tools/depmod.c:2036-2040 | a short order leaves a real cycle |
| `Closure.FillAllUnique` | tools/depmod.c:2070-2092 | terminates on every graph, cyclic ones too, and adds with each module its dependencies |
| `Closure.FilledIsClosure` | tools/depmod.c:2070-2092 | exactly the modules reachable by one or more edges, without duplicates |
| `Closure.AllSortedDependencies` | tools/depmod.c:2094-2103 | that closure in ascending order of index |
| `Closure.ClosureOrder` | tools/depmod.c:2094-2103 | on an acyclic graph each entry precedes all its own dependencies, and the module is not listed |
| `Closure.ClosureUnique` | tools/depmod.c:2094-2103 | the sorted closure is determined by the graph and the numbering |
| `Depline.RoundTrip` | libkmod/libkmod-module.c:124-170 | a written line is read back |
| `Depline.RoundTripIff` | libkmod/libkmod-module.c:124-170 | a line is read back if and only if the path has no colon and the dependencies are words without blanks |
| `Depline.ColonSplits` | libkmod/libkmod-module.c:124-170 | where it is not: of a path with a colon the remainder is read as a dependency, though the module has none |
| `Depline.JoinKeepsName` | libkmod/libkmod-module.c:84-98 | joining a path to the directory keeps the module's name |
| `Depline.NameOfFile` | shared/util.c:140-171 | the file dir/name or dir/name.ext is the module name, with underscores for dashes, byte by byte |
| `Depline.TwoDependencies` | tools/depmod.c:2174-2190 | the bytes of a line: path, colon, and a space before each dependency |
| `Depline.PoolModule.ParseDepline` | libkmod/libkmod-module.c:109-185 | the first line sets the module's path, unless it has one, and its dependencies: the modules for the joined paths of the words, last first, nothing if a path does not fit or its module cannot be made; later lines are ignored |
| `ProbeState.AfterBody` | libkmod/libkmod-module.c:931-979 | the body of a module adds itself and its dependency list, besides what other visits add |
| `ProbeState.BodiesSize` | libkmod/libkmod-module.c:931-979 | the length of the list is the sum over visited modules of 1 plus the number of hard dependencies |
| `ProbeList.Prober.FillSoftdep` | libkmod/libkmod-module.c:889-928 | the pre soft dependencies in order, the module, the post soft dependencies in order, each with what it brings along; all of them visited |
| `ProbeList.Prober.GetProbeList` | libkmod/libkmod-module.c:931-979 | visits a module at most once, terminates on every soft dependency graph, sets the required flags before any soft dependency is visited |
| `ProbeList.VisitedIsNeeded` | libkmod/libkmod-module.c:889-979 | exactly the modules that soft dependencies lead to are visited |
| `ProbeList.Prober.ProbeListOf` | libkmod/libkmod-module.c:981-1002 | contents, length, hard order, pre order up to cycles, the order of the modules a visit brings, with the laws of post, of several pre and of several post soft dependencies (below), required and ignore flags of the finished list; succeeds if and only if every soft dependency lookup on the way does, otherwise no list and the error of one that does not |
| `ProbeOrder.PostAfterLaw` | libkmod/libkmod-module.c:907-921 | whatever stands before a module is on the list without that module's post soft dependencies too; so a post soft dependency that nothing else asks for stands behind it |
| `ProbeOrder.PreInOrderLaw` | libkmod/libkmod-module.c:900-905 | whatever stands before a pre soft dependency is on the list without it and all that come later, or is something that it leads to |
| `ProbeOrder.PostInOrderLaw` | libkmod/libkmod-module.c:916-921 | the same among the post soft dependencies |
| `ProbeOrder.Flat` | libkmod/libkmod-module.c:889-928 | a module whose soft dependencies are leaves: pre in order, the module, post in order |
| `Insertion.InsertAll` | libkmod/libkmod-module.c:1058-1114 | 0 exactly if every required entry is answered 0 or -EEXIST or is in the kernel when that counts, and the module itself is not met loaded when that is to fail; otherwise the error of the first entry where this breaks |
| `Insertion.VerdictJudged` | libkmod/libkmod-module.c:1067-1111 | so for the result as a function of the answers |
| `Insertion.SuccessLoads` | libkmod/libkmod-module.c:1100-1110 | a result of 0 means every required entry is loaded |
| `Insertion.SoftFailuresIgnored` | libkmod/libkmod-module.c:1103-1110 | whatever happens to entries that are only soft dependencies, the result is the same |
| `Insertion.DependenciesLoadedBefore` | libkmod/libkmod-module.c:1058-1111 | a required dependency is loaded before the entry that needs it is tried |
| `Insertion.RequiredInOrder` | libkmod/libkmod-module.c:944-955 | no required module is tried before all its hard dependencies are loaded |
| `Insertion.ApplyFilter` | libkmod/libkmod-module.c:739-777 | the list without the blacklisted modules |
| `Insertion.WithoutInOrder` | libkmod/libkmod-module.c:1038-1053 | the filter keeps the order: every module left stands behind its hard dependencies that are left |
| `Insertion.Checks` | libkmod/libkmod-module.c:1017-1033 | the results before any list is made; a module on the list to skip does not get past them |
| `Insertion.ProbeInsert` | libkmod/libkmod-module.c:1004-1115 | checks, list, filter and loop: the early results; the loop runs over the filtered probe list under the flags of the request and gets its answers from the kernel; 0 means the module is loaded, and of its hard dependencies exactly those that the blacklist has not taken off the list |
| `Insertion.KeptIff` | libkmod/libkmod.h:744-747 | the documented early return of KMOD_PROBE_APPLY_BLACKLIST_ALL is kept if and only if the module itself is blacklisted or each of its blacklisted dependencies is in the kernel already |
| `Insertion.BrokenRun` | libkmod/libkmod-module.c:1038-1053 | otherwise the call goes on, with a blacklisted dependency neither on the list nor loaded |
| `Insertion.DependencyBlacklisted` | libkmod/libkmod-module.c:1024-1053 | an input that breaks it: a module whose one dependency is blacklisted |
| `Insertion.LoadWithoutDependency` | libkmod/libkmod-module.c:1004-1115 | ... run: the module is tried, its dependency is not, and 0 leaves the dependency unloaded |
| `Pipeline.OutputDeps` | tools/depmod.c:2146-2201 | the index file of every module's sorted closure |
| `Pipeline.ReadDependencies` | libkmod/libkmod-module.c:522-533 | from the file: a module's closure, deepest first |
| `Pipeline.ReadBackInOrder` | libkmod/libkmod-module.c:149-181 | in every list read back, an entry's dependencies stand before it |
| `Pipeline.ProbeFromIndex` | libkmod/libkmod-module.c:889-1002 | from the file: the probe list of the dependencies read back and the given soft dependencies, every occurrence of a module behind all its direct and indirect dependencies |
| `Pipeline.LoadFromIndex` | libkmod/libkmod-module.c:1004-1115 | from the file through the insertion loop and the answers of the kernel: 0 means the module and all its direct and indirect dependencies are loaded (blacklisted ones excepted, if they are to be skipped), and no module required for it is tried before all of its own are |
| `Pipeline.DepmodRun` | tools/depmod.c:1980-2201 | the file of an acyclic table; a cyclic one is refused, and only a cyclic one |
| `Pipeline.EndToEnd` | libkmod/libkmod-module.c:1004-1115 | depmod and modprobe in one theorem: from the recorded dependencies through the bytes of the index to the answers of the kernel. The run stops at cyclic dependencies, as depmod does, and, which depmod does not, at an index with a node out of reach; otherwise the list is the filtered probe list in load order, exactly the modules reached are required, and 0 means that all of them are loaded |
| `KcmdlineSpec.PhaseNext` | libkmod/libkmod-config.c:665-729 | reading an option character by character is looking at its first two special characters |
| `KcmdlineSpec.SameReading` | libkmod/libkmod-config.c:731-753 | for all quote-free text, quotes around the option and quotes around the value are read as the same setting, wherever the option stands |
| `KcmdlineSpec.SameLine` | libkmod/libkmod-config.c:662-759 | a command line has the same effects as a whole, whichever way an option in it is quoted |
| `Kcmdline.Requote` | libkmod/libkmod-config.c:747-751 | the memmove and the quote, byte by byte |
| `Kcmdline.CompleteQuoted` | libkmod/libkmod-config.c:739-753 | when it runs, quote start + 1 = modname < param < value; it yields the option with the quote moved and leaves the value's bytes alone |
| `Kcmdline.Complete` | libkmod/libkmod-config.c:731-757 | the effects of the option that ends at the cursor; no byte behind the cursor rewritten |
| `Kcmdline.ParseResult` | libkmod/libkmod-config.c:606-631 | blacklist entries or module options, nothing for a bad module name |
| `Kcmdline.ParseKcmdline` | libkmod/libkmod-config.c:662-759 | on every buffer, the effects of its options, although the buffer is rewritten on the way |
| `KcmdlineLines.NameUnderscores` | shared/util.c:109-138 | of a module name dashes become underscores outside brackets and stay inside them; a bracket that does not match makes the name bad |
| `KcmdlineLines.WordEffects` | libkmod/libkmod-config.c:606-631 | what each form of an option sets: the parameter with its text under the module's name, tabs in quotes as spaces, the names to blacklist in order, or nothing |
| `KcmdlineLines.LineMeans` | libkmod/libkmod-config.c:662-759 | a line of such options sets what they say, one after the other |
| `KcmdlineLines.ParseLine` | libkmod/libkmod-config.c:662-759 | ... through the parser on its buffer |
| `KcmdlineLines.ParseGiven` | libkmod/libkmod-config.c:606-759 | mod.param=text gives the module mod, with underscores for dashes, the option param=text and nothing else |
| `KcmdlineLines.ParseBare` | libkmod/libkmod-config.c:606-759 | mod.param gives the module mod the option param |
| `KcmdlineLines.ParseBanned` | libkmod/libkmod-config.c:606-759 | modprobe.blacklist=n1,...,nk blacklists n1 to nk in this order |
| `Softdep.Count` | libkmod/libkmod-config.c:249-296 | the numbers and bytes of the words by marker, refused if more than 32 bits can count |
| `Softdep.Copy` | libkmod/libkmod-config.c:327-375 | fills exactly what was counted: every pointer leads to its word |
| `Softdep.Allocation` | libkmod/libkmod-config.c:298-315 | the chain of overflow checks succeeds, with the size, exactly if the size fits |
| `Softdep.AddSoftdep` | libkmod/libkmod-config.c:234-375 | both passes together: the words stored as pre and post are those whose last marker before them is pre: and post:, in order; the module's name, and the two errors exactly when they are due |
| `Softdep.AssignedByPosition` | libkmod/libkmod-config.c:346-372 | partitioning the words one by one is choosing them by the last marker before their position |
| `Softdep.LineWords` | libkmod/libkmod-config.c:250-293 | of a line of words with white space between them the parser sees these words, the first one with the white space in front of it if that is a single character |
| `Softdep.ParsedIff` | libkmod/libkmod-config.c:250-293 | the result is the tokens by most recent marker if and only if no first marker hides behind a single leading white space |
| `Softdep.HiddenMarker` | libkmod/libkmod-config.c:250-293 | where that fails: of the line " pre: w" nothing is kept, for any word w, while its tokens give w as a pre dependency |
| `Backoff.GetBackoffDelta` | shared/util.c:538-569 | the deadline is in the future and not after the end; the delta is doubled or at least half of the time left |
| `Backoff.HistoryBound` | tools/modprobe.c:382-414 | sleeps are first doublings, then halvings, at most twice the logarithm of the time |
| `Backoff.HistoryOf` | tools/modprobe.c:390-410 | every run of attempts that go on has such a history |
| `Backoff.Sleep` | tools/modprobe.c:390-410 | the clock and the interval after the sleep, and whether the loop goes on |
| `Backoff.RemoveModule` | tools/modprobe.c:365-420 | stops at the first attempt that is not worth another one, with its result, -EEXIST turned into 0 unless it counts; before that the module was busy each time, and if it still is the time is up; the number of attempts is logarithmic in the time to wait |
| `HashTable.Search` | shared/hash.c:233-236 | binary search in a sorted bucket is exact |
| `HashTable.ShiftUp` | shared/hash.c:158-166 | the memmove inside the allocated array and the new entry in the gap |
| `HashTable.ShiftDown` | shared/hash.c:263-264 | the memmove over the removed entry |
| `HashTable.Hash.Add` | shared/hash.c:130-170 | the map with the key set; sorted buckets, each in an array of its own with room to spare, and count kept |
| `HashTable.Hash.AddUnique` | shared/hash.c:173-209 | the map with the key set, or an error exactly if it was there |
| `HashTable.Hash.Find` | shared/hash.c:218-237 | the value of the key, nothing exactly if it is not there |
| `HashTable.Hash.Del` | shared/hash.c:239-281 | the map without the key, an error exactly if it was not there; the shrunk bucket has room to spare |
| `HashTable.Iterator.Next` | shared/hash.c:295-325 | the entries in order, and nothing exactly at the end |
| `HashTable.VisitAll` | shared/hash.c:288-325 | an iteration visits every pair of the map exactly once |
| `HashTable.WholeTable` | shared/hash.c:134-135 | the buckets together are the map, no key twice |
| `CircularList.RotatedRing` | libkmod/libkmod-list.c:11-41 | a ring read from another node is a ring |
| `CircularList.Link` | libkmod/libkmod-list.c:19-30 | a node between the last and the first |
| `CircularList.LinkAfter` | libkmod/libkmod-list.c:43-54 | a node between the first and the second |
| `CircularList.Splice` | libkmod/libkmod-list.c:69-86 | two rings become one |
| `CircularList.Unlink` | libkmod/libkmod-list.c:32-41 | the ring without its first node, or nothing |
| `CircularList.Append` | libkmod/libkmod-list.c:88-100 | one node at the end |
| `CircularList.Prepend` | libkmod/libkmod-list.c:149-161 | one node at the front |
| `CircularList.InsertAfter` | libkmod/libkmod-list.c:102-117 | one node in second place |
| `CircularList.InsertBefore` | libkmod/libkmod-list.c:119-134 | one node in front of any node of the ring, or alone in front of nothing |
| `CircularList.AppendList` | libkmod/libkmod-list.c:136-147 | concatenation |
| `CircularList.Remove` | libkmod/libkmod-list.c:163-177 | the list without its first node |
| `CircularList.RemoveData` | libkmod/libkmod-list.c:179-199 | the rotation that starts behind the removed node; the list itself if no node has the data |
| `CircularList.Next` | libkmod/libkmod-list.c:213-223 | the next node, nothing after the last, nothing without a list or a node |
| `CircularList.Prev` | libkmod/libkmod-list.c:201-211 | the previous node, nothing before the first, nothing without a list or a node |
| `CircularList.Last` | libkmod/libkmod-list.c:225-230 | the last node |
| `ConfFiles.InsertSorted` | libkmod/libkmod-config.c:916-967 | the file in its place, an error exactly if the name is taken |
| `ConfFiles.FirstFileWins` | libkmod/libkmod-config.c:930-940 | after any run of insertions: names strictly sorted, each with the first file inserted |
| `ElfSymbols.CrcFind` | libkmod/libkmod-elf.c:935-956 | the first terminated record of the name and its checksum, 0 if there is none |
| `ElfSymbols.CountSymbols` | libkmod/libkmod-elf.c:1034-1111 | the number of listed symbols, their checksums and the records they claim; an error exactly if a name lies outside the string table |
| `ElfSymbols.CountRecords` | libkmod/libkmod-elf.c:1113-1134 | the number of unclaimed records; an error exactly if one of them has no end |
| `ElfSymbols.FillSymbols` | libkmod/libkmod-elf.c:1158-1225 | the listed symbols in table order with their checksums |
| `ElfSymbols.FillRecords` | libkmod/libkmod-elf.c:1232-1248 | the unclaimed records behind them, filling the array exactly |
| `ElfSymbols.DependencySymbols` | libkmod/libkmod-elf.c:964-1251 | the whole list, or -EINVAL exactly if the tables are not in order |
| `ElfImage.SymRead` | libkmod/libkmod-elf.c:1054-1067 | a symbol table entry of either width and byte order is read back |
| `ElfImage.SymMeaning` | libkmod/libkmod-elf.c:1070-1085 | it is wanted if its section index is 0 and it is not a SPARC register, and weak if its binding is 2 |
| `ElfImage.VersionRead` | libkmod/libkmod-elf.c:935-956 | a record of either width and byte order is read back, checksum and name |
| `ElfImage.DependenciesKnown` | libkmod/libkmod-elf.c:964-1251 | of a file written with such entries and records: the missing symbols in table order with the checksum recorded first for the name, then the records that none of them uses |
| `ElfImage.ReadImage` | libkmod/libkmod-elf.c:964-1251 | ... through the reader |

## Left out

- MmReader.Search: and all other reader statements are for files that depmod writes and that meet the condition of Layout.FileLinkedIff; what the readers make of other files is not modelled. Keys of 2^31 bytes and more, whose positions would not fit the int that walks them, are not excluded.
- FileReader.ReadValues: the length field of a value read through the stream counts the terminator, that of the mapped reader does not; values here have a text and a priority only.
- FileReader.SearchWild: the stream reader's own dump (index_dump) is not modelled; it differs from the mapped one only in the order of equal priorities.
- Glob: locales; ranges and character classes are those of the POSIX locale.
- Patterns.PatternMatches: patterns in which an opening bracket inside a bracket expression stands for itself before a dot, an equals sign or a colon, or a class name has a colon, are read as `Glob` says; the law does not speak of them.
- KcmdlineLines.LineMeans: lines with a quote inside an option, other than around it or its value, and unclosed quotes are left to `Kcmdline.ParseKcmdline`.
- HashTable.Hash.Add: values are not released and the hash function is any function; array slots that are not used yet hold a copy of some entry instead of nothing.
- Depmod.ModuleTable.AddDependency: modules are the rows of one table, not separate structures; where the symbols come from (the symbol table and its owners) is not modelled.
- Depmod.SortByIndex: stands for the C library's qsort, which is determined on distinct keys.
- ProbeList.Prober.ProbeListOf: soft dependencies of a module are given, already looked up; the configuration lookup, aliases and weak dependencies are not modelled.
- Pipeline.ReadDependencies: a path leads to the module of its name; modules found through an alias, which are separate objects in the pool, and the stat of each path are not modelled.
- Pipeline.EndToEnd: stops before reading an index with a node out of reach; depmod writes such a file without complaint, with offsets that lead elsewhere.
- Insertion.InsertAll: dry runs, install commands, module options and the callbacks are not modelled.
- Kcmdline.ParseResult: works on the strings it is given; its own changes to them in the buffer (strsep, dashes to underscores) are not modelled.
- Softdep.AddSoftdep: the name and the words are in separate arrays, not in one block; sizes are those of machines with 64-bit addresses.
- Depline.PoolModule.ParseDepline: strtok's writes into the line are not modelled; making a module from a path is an input.
- Backoff.RemoveModule: the clock is an input that is never read before the deadline slept for; an end time beyond 64 bits is excluded.
- ElfSymbols.DependencySymbols: finding the sections in the file is not modelled; strings end at the end of the file at the latest.
- CircularList.Remove: the removed node is not freed.
- Cycle reports of depmod, module priorities by search path, aliases and symbols output, the printers for softdeps and weakdeps, removal of holders, decompression, signatures, file and system calls, command lines and logging.
