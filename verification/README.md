# Models of the WebKit build and test tools

This project models, in Dafny, the algorithmic cores of a WebKit tree and proves what they
promise. Imperative code stays imperative (classes, arrays, loops), and each method is proved
against a specification about which the promised properties are then shown.

| files | what they model |
|---|---|
| `KeywordTrie`, `KeywordEmit`, `KeywordCost`, `KeywordComparisons`, `KeywordObjects`, `KeywordGenerator` | the script that compiles a keyword table into a C++ decision tree for the JavaScript lexer |
| `References`, `LinkTables`, `Combiner`, `LinkInputs` | the combiner that links LLVM modules by renumbering attributes and metadata |
| `Threads`, `ThreadHistories` | the JavaScript threads that replace themselves until told to stop |
| `Crc`, `CrcBurst`, `CrcRemainder`, `Png` | the cached-table CRC-32, and the PNG writer that inserts a checksum chunk |
| `Packages` | the dependency closure of the Cygwin downloader |
| `WorkQueues` | the fixed-size and the gated work queue of the two test drivers |
| `CommandLine` | the tokenizer and parser of test command lines |

## The keyword compiler

`TrieNode` is the generator's trie as mutable objects; its ghost field `model` is the trie value they
stand for. `AddKeyword` and `CoalesceNode` are tied to the functions `Insert` and `CoalesceKeys`,
`FillOut` to `Arranged`, `Weighed` and `Sorted`, and `PrintSubTree` to `Emit`, which gives the emitted
code as a syntax tree. `Exec` runs that tree over a buffer, with the comparison macros defined on
machine words and a read past the end of the buffer as the outcome `Fault`. `Generate` is the whole
script; its contract says that on every buffer of at least `maxTokenLength` units the emitted code
answers as the keyword table does (`Answers`). The answer is stated on the table alone: the shortest
listed keyword at the front that a non-identifier unit follows, with the value it was given last.
Two conditions are made explicit: the units fit the character width, and a macro exists for every
test. The second holds exactly when no edge of the compressed trie is longer than eight units
(`CompilesIff`). When keywords consist of identifier parts the keyword is unique and is always found
(`MatcherFindsKeyword`).

## The module combiner

`Linked` is what a finished link promises: read against the final tables, every reference in every
printed body and declaration stands for the attribute text or metadata name it stood for in its own
module. `Combine` ends normally exactly when every module can be accepted (`AllAccepted`), and then the
output is linked. The worklist of the resolution loop may fail to shrink; the source then loops for
ever, and the model reports `Diverges`. `Resolve` proves that this happens exactly when the input is
`Blocked`, a property of the lines alone. Two expected properties do not hold as they stand:

* Parent chains are not always preserved, since a name keeps the parent of its first definition;
  `ChainLost` shows two accepted modules for which they are not. `PreservedIffConsistent` proves, for
  every finished link, that parents precede their children and all local chains, complete or not, are
  kept exactly when no name is given two parents.
* A parent index is not always smaller than its child's. The new index is stored before the parent's
  is read, so a node that names itself as its parent can become its own global parent;
  `SelfParentArises` shows an accepted module for which it does. This needs a module that gives one
  number to two names (`UniqueNumbersPrecede`). When every child line of such a name is self-parented,
  as it is when the names of a module are distinct, `RootedIff` proves that the order holds exactly
  when every self-parented line has a name that is already in the tables or has a root line in its
  module.

## The threads

`State` holds the program counter of every thread, the mutex, the registered and detached ids, the
flag and stop's copy. `Step` interleaves single steps of any thread, with the random respawn decision
and the order in which the set is copied out left open. All results quantify over every behaviour from
the initial state. Two points deserve attention:

* Between the flag check and the respawn no lock is held. The copied ids are safe from being detached
  in every continuation exactly when no thread is in that window as the flag is set (`CleanStopIff`).
* The final clear goes through an accessor that asserts that the mutex is taken. At that point
  the stopping thread never holds it, so the assertion holds exactly when some worker is inside a
  critical section (`ClearWithoutLock`), and every run in which stop has not returned can be continued
  to one in which it fails (`ClearCanFail`).
* The registered set is not always empty after stop. A worker that detaches itself lets its join return,
  so stop can clear the set while that worker is still on its way to register a replacement
  (`ClearUndone`). The set stays empty exactly when nobody is on that way (`EmptyIff`).

## Model

| member | source | states |
|---|---|---|
| KeywordTrie.InsertUpdates | Source/JavaScriptCore/KeywordLookupGenerator.py:103-109 | inserting a keyword changes the dictionary at that word and at no other word |
| KeywordTrie.InsertKeepsShape | Source/JavaScriptCore/KeywordLookupGenerator.py:103-109 | inserting keeps one-unit edges filed under their own prefix, and no leaf without a value arises |
| KeywordTrie.BuildIsDictionary | Source/JavaScriptCore/KeywordLookupGenerator.py:214-217 | the finished trie looks up every word as the table does, the last listed value winning |
| KeywordTrie.CoalescePreserves | Source/JavaScriptCore/KeywordLookupGenerator.py:111-126 | the subtree coalesce returns says the same about every word as the one it was called on |
| KeywordTrie.CoalesceKeysPreserves | Source/JavaScriptCore/KeywordLookupGenerator.py:111-116 | replacing the children by their compressed forms loses no subtree and keeps every look-up |
| KeywordTrie.CoalesceKeysShape | Source/JavaScriptCore/KeywordLookupGenerator.py:111-116 | re-keyed children sit under their own prefix and still differ in their first unit |
| KeywordTrie.CoalesceKeysCompresses | Source/JavaScriptCore/KeywordLookupGenerator.py:111-126 | afterwards every node below the root has a value or at least two children |
| KeywordObjects.TrieNode.constructor | Source/JavaScriptCore/KeywordLookupGenerator.py:98-101 | a new node is a tree of its own with no value and no children |
| KeywordObjects.TrieNode.AddKeyword | Source/JavaScriptCore/KeywordLookupGenerator.py:103-109 | the mutated objects stand for the inserted trie and still form a tree without sharing |
| KeywordObjects.TrieNode.CoalesceNode | Source/JavaScriptCore/KeywordLookupGenerator.py:111-126 | the node itself ends as the re-keyed trie, the result as the compressed one, whatever the order of the dictionary |
| KeywordObjects.TrieNode.RekeyAll | Source/JavaScriptCore/KeywordLookupGenerator.py:112-115 | the loop over the children collects exactly the compressed children, disjoint from one another |
| KeywordObjects.TrieNode.CollapseNode | Source/JavaScriptCore/KeywordLookupGenerator.py:117-126 | a node without a value and with one child is replaced by a new node that takes over that child's value and keys |
| KeywordGenerator.FillOut | Source/JavaScriptCore/KeywordLookupGenerator.py:128-138 | full prefixes, every node's weight the sum of the given weights of the words of its subtree, and siblings by descending weight, with no child lost or repeated |
| KeywordGenerator.PrintSubTree | Source/JavaScriptCore/KeywordLookupGenerator.py:140-174 | the loop over the children emits the decision tree of the specification |
| KeywordGenerator.LongestPrefix | Source/JavaScriptCore/KeywordLookupGenerator.py:176-182 | the largest full-prefix length in the subtree |
| KeywordGenerator.InsertAll | Source/JavaScriptCore/KeywordLookupGenerator.py:215-217 | the loop over the table leaves the objects standing for the whole table |
| KeywordGenerator.Generate | Source/JavaScriptCore/KeywordLookupGenerator.py:214-219 | for every table and every weights, the emitted code answers every long enough buffer as the table asks, and it compiles exactly when no compressed edge exceeds eight units |
| CompareMacros.Compare4Exact | Source/JavaScriptCore/KeywordLookupGenerator.py:265-279 | the four-unit compare on one machine word or two is unit-by-unit equality |
| CompareMacros.CompareExact | Source/JavaScriptCore/KeywordLookupGenerator.py:222-302 | every compare form, including the overlapping seven-unit one, is unit-by-unit equality on every little-endian target and both unit widths |
| KeywordMatcher.BranchDecides | Source/JavaScriptCore/KeywordLookupGenerator.py:150-164 | an emitted test, widened backwards or not, decides the edge once the units before it have matched |
| KeywordMatcher.ExecReports | Source/JavaScriptCore/KeywordLookupGenerator.py:140-174 | the code of any subtree reports the shortest hit at or below it and never reads past the longest prefix |
| KeywordMatcher.CompactIsDictionary | Source/JavaScriptCore/KeywordLookupGenerator.py:215-218 | dropping the result of the root's coalesce is harmless: the root is a compressed trie with the dictionary of the table |
| KeywordMatcher.CompilesIff | Source/JavaScriptCore/KeywordLookupGenerator.py:153-164 | a macro exists for every emitted test if and only if every edge has at most eight units |
| KeywordMatcher.MatcherIsDictionary | Source/JavaScriptCore/KeywordLookupGenerator.py:103-174 | the emitted code returns the token of the shortest listed keyword ended by a non-identifier unit, shifts by its length, and returns IDENT when there is none |
| KeywordMatcher.MatcherFindsKeyword | Source/JavaScriptCore/KeywordLookupGenerator.py:140-174 | for keywords made of identifier parts, a keyword that fits the buffer is the one reported |
| KeywordMatcher.MaxLengthIsLongest | Source/JavaScriptCore/KeywordLookupGenerator.py:176-190 | maxTokenLength is one more than the length of the longest listed keyword |
| KeywordCost.SortedCheapest | Source/JavaScriptCore/KeywordLookupGenerator.py:128-138 | of all sibling orders of the trie, the sorted one has the least recursive cost, which is the weighted number of comparisons performed |
| KeywordCost.TestsAreSpent | Source/JavaScriptCore/KeywordLookupGenerator.py:150-174 | running the emitted code on a buffer that spells a keyword performs one comparison for every sibling up to the one taken, on every level down to the keyword |
| KeywordComparisons.WeightsTotal | Source/JavaScriptCore/KeywordLookupGenerator.py:129-138 | the weights summed from the leaves up are, at every node, the total of the given weights of the words of its subtree |
| KeywordComparisons.PerformedIsCost | Source/JavaScriptCore/KeywordLookupGenerator.py:128-174 | summed over the weighted keywords, weight times comparisons performed on a buffer that spells the keyword is the recursive cost of the tree |
| KeywordComparisons.FewestComparisons | Source/JavaScriptCore/KeywordLookupGenerator.py:128-174 | the sum over the weighted keywords of given weight times comparisons performed is least, of all sibling orders, for the code emitted for the sorted tree |
| References.Parse | Tools/ReducedFTL/combineModules.rb:48-60 | the loop cuts the text into alternating texts and references, leftmost reference first |
| References.ToStringOfToInt | Tools/ReducedFTL/combineModules.rb:57 | a number is written back as it stood if and only if it had no leading zero |
| References.ReferenceText | Tools/ReducedFTL/combineModules.rb:51-57 | a hash or bang sign with a number behind it is read as the reference of that kind and number |
| References.RenumberCommutes | Tools/ReducedFTL/combineModules.rb:48-60 | reading the printed form of a renumbered list gives exactly that list, for every renumbering |
| References.PrintRestores | Tools/ReducedFTL/combineModules.rb:48-60 | printing a parsed text restores it if and only if no number had a leading zero |
| LinkTables.FaithfulExtends | Tools/ReducedFTL/combineModules.rb:162-172 | what was printed keeps its meaning when later modules extend the tables |
| LinkTables.FaithfulReads | Tools/ReducedFTL/combineModules.rb:162-172 | the printed text of a faithful body parses back to the renumbered references |
| LinkTables.ChainsPreserved | Tools/ReducedFTL/combineModules.rb:119-160 | under one parent name per metadata name, the parent-name chain of a local node is that of its global image, or a beginning of it where the module leaves its own chain incomplete |
| LinkTables.PreservedIffConsistent | Tools/ReducedFTL/combineModules.rb:119-160 | parents precede their children and all chains are preserved if and only if no name is given two different parent names |
| LinkTables.ConsistentRooted | Tools/ReducedFTL/combineModules.rb:119-160 | one parent name per metadata name is enough for every parent to precede its child |
| LinkTables.ParentsPrecede | Tools/ReducedFTL/combineModules.rb:142-160 | every global parent index is smaller than its child's unless a self-parented line of a new name without a root line shares its number with another name |
| LinkTables.UniqueNumbersPrecede | Tools/ReducedFTL/combineModules.rb:142-160 | every global parent index is smaller than its child's when no module gives one metadata number to two names |
| LinkTables.RootedIff | Tools/ReducedFTL/combineModules.rb:109-160 | over a whole run, parents precede their children if and only if every self-parented line has a name known from earlier modules or from a root line of its own |
| LinkTables.SelfParentAdded | Tools/ReducedFTL/combineModules.rb:142-160 | a new name all of whose child lines are self-parented breaks the order |
| LinkTables.StaysRooted | Tools/ReducedFTL/combineModules.rb:147-155 | settling an entry keeps every parent before its child if and only if its name is known or it does not name itself as parent |
| LinkInputs.SelfParentArises | Tools/ReducedFTL/combineModules.rb:151-155 | a module with a root line and a self-parented line of the same number is accepted, and in every link of it some parent does not precede its child |
| LinkInputs.ChainLost | Tools/ReducedFTL/combineModules.rb:146-153 | two modules that put one name below different parents are accepted, and every link of them is ordered and loses a chain |
| LinkTables.ResolvedNotBlocked | Tools/ReducedFTL/combineModules.rb:142-160 | whatever order resolves all entries, nothing was blocked to begin with |
| LinkTables.AnchoredResolves | Tools/ReducedFTL/combineModules.rb:142-160 | nothing is blocked when every parent chain reaches a root or a known name |
| Combiner.Linker.InternAttribute | Tools/ReducedFTL/combineModules.rb:129-138 | a body gets the index of its only copy in a table that is only ever appended to |
| Combiner.Linker.AddMeta | Tools/ReducedFTL/combineModules.rb:122-124 | a new name gets the next dense index, equal to its insertion position |
| Combiner.Linker.ReadLines | Tools/ReducedFTL/combineModules.rb:104-140 | the local maps agree with the tables, the attribute table holds the bodies read so far and no others in order of first occurrence, and declarations and child metadata are collected in order |
| Combiner.Linker.SettleEntry | Tools/ReducedFTL/combineModules.rb:146-158 | an entry is settled if and only if its name is known or its parent mapped |
| Combiner.Linker.Sweep | Tools/ReducedFTL/combineModules.rb:144-159 | a swap-with-last sweep keeps every entry settled or waiting, and one without progress leaves only entries that wait |
| Combiner.Linker.Resolve | Tools/ReducedFTL/combineModules.rb:142-160 | the loop ends if and only if the module is not blocked, and then every entry has a global index |
| Combiner.Relink | Tools/ReducedFTL/combineModules.rb:34-45 | resolving raises if and only if a reference has no definition, and otherwise every reference keeps its meaning |
| Combiner.AddDeclarations | Tools/ReducedFTL/combineModules.rb:174-190 | the list is that of all renumbered declarations offered so far, each where it stands first |
| Combiner.DeclarationsComplete | Tools/ReducedFTL/combineModules.rb:174-196 | every declaration of every module is in the output, none twice, and no other |
| Combiner.Linker.AddModule | Tools/ReducedFTL/combineModules.rb:93-191 | a module is accepted if and only if it is unblocked and all its references are defined, loops for ever if and only if it is blocked, and otherwise raises; the output so far stays linked |
| Combiner.Combine | Tools/ReducedFTL/combineModules.rb:91-210 | the run ends normally if and only if every module is accepted, and then every printed reference means in the output what it meant in its module, and attributes and declarations are those of the modules and no others, in order of first occurrence; otherwise it loops for ever or raises according to whether the first rejected module is blocked |
| Threads.StepKeeps | Tools/DumpRenderTree/JavaScriptThreading.cpp:61-151 | every step of every thread keeps the protocol invariant |
| Threads.FourRegistered | Tools/DumpRenderTree/JavaScriptThreading.cpp:107-129 | whenever the mutex is free between start and the final clear, exactly four ids are registered: those of the threads that have not replaced themselves |
| Threads.CopyHasFour | Tools/DumpRenderTree/JavaScriptThreading.cpp:138-143 | the size assertion in stop never fails |
| Threads.ClearWithoutLock | Tools/DumpRenderTree/JavaScriptThreading.cpp:52-57 | at the final clear the stopping thread does not hold the mutex, and the accessor's assertion holds if and only if some worker is inside a critical section |
| Threads.ClearCanFail | Tools/DumpRenderTree/JavaScriptThreading.cpp:131-151 | every run in which stop has not returned has a continuation that reaches the final clear with the mutex free, where the assertion fails |
| Threads.FlagCanBeSet | Tools/DumpRenderTree/JavaScriptThreading.cpp:121-136 | every run in which stop has not returned has a continuation in which the flag is set |
| Threads.FewCreatedAfterFlag | Tools/DumpRenderTree/JavaScriptThreading.cpp:97-112 | at most as many threads are created after the flag is set as were then past their flag check, and at most four |
| ThreadHistories.LeavesByFlag | Tools/DumpRenderTree/JavaScriptThreading.cpp:97-113 | a worker leaves without respawning only through a flag check that found the flag set |
| ThreadHistories.NoneLeavesBeforeFlag | Tools/DumpRenderTree/JavaScriptThreading.cpp:97-113 | before the flag is set no worker is leaving or gone without having respawned |
| ThreadHistories.FourInLoops | Tools/DumpRenderTree/JavaScriptThreading.cpp:81-129 | between start and stop, with the mutex free, the registered threads are exactly the four still in their loops |
| ThreadHistories.GoesRound | Tools/DumpRenderTree/JavaScriptThreading.cpp:81-105 | a worker that does not respawn can run the script and come back to the decision with nothing else changed |
| ThreadHistories.WorksBeforeCheck | Tools/DumpRenderTree/JavaScriptThreading.cpp:81-101 | every flag check follows a run of the script and an allocation since the last decision |
| ThreadHistories.PreparesFirst | Tools/DumpRenderTree/JavaScriptThreading.cpp:69-87 | every run of the script follows the creation of the context and then of the script |
| ThreadHistories.CleansUp | Tools/DumpRenderTree/JavaScriptThreading.cpp:115-119 | whoever is gone has cleaned up while holding the mutex |
| ThreadHistories.CleanStop | Tools/DumpRenderTree/JavaScriptThreading.cpp:131-146 | if no thread is in the window when the flag is set, copied ids are never detached and each joined thread left through a flag check that found the flag set |
| ThreadHistories.ClearEmpties | Tools/DumpRenderTree/JavaScriptThreading.cpp:145-148 | the step with which stop returns leaves the registered set empty |
| ThreadHistories.EmptyIff | Tools/DumpRenderTree/JavaScriptThreading.cpp:107-148 | once stop has returned the set stays empty in every continuation if and only if no worker is between its flag check and the registration of its replacement |
| ThreadHistories.ClearUndone | Tools/DumpRenderTree/JavaScriptThreading.cpp:107-148 | a run in which stop returns, having emptied the set, and a worker registers its replacement afterwards |
| Threads.WindowCanDetach | Tools/DumpRenderTree/JavaScriptThreading.cpp:97-112 | from any thread in the window there is a run in which its id is copied and then detached |
| Threads.CleanStopIff | Tools/DumpRenderTree/JavaScriptThreading.cpp:97-146 | the copied ids stay undetached in every continuation if and only if the window is empty when the flag is set |
| Threads.NoDeadlock | Tools/DumpRenderTree/JavaScriptThreading.cpp:61-151 | no step is possible if and only if stop has returned and every thread is gone |
| Threads.StopReturns | Tools/DumpRenderTree/JavaScriptThreading.cpp:131-151 | after the flag is set the number of remaining steps is bounded under every interleaving, and stop has returned when none is left |
| Crc.TableStep | Tools/DumpRenderTree/CyclicRedundancyCheck.cpp:60-61 | one table look-up does the work of eight shifts of the register |
| Crc.MakeCrcTable | Tools/DumpRenderTree/CyclicRedundancyCheck.cpp:36-48 | every table entry is its index shifted eight times |
| Crc.RunTable | Tools/DumpRenderTree/CyclicRedundancyCheck.cpp:59-61 | the table-driven loop computes the bitwise register of the buffer |
| Crc.Cache.ComputeCrc | Tools/DumpRenderTree/CyclicRedundancyCheck.cpp:50-63 | with or without a cached table the result is the reflected CRC-32 of the buffer, and the cache stays valid |
| CrcBurst.RegisterFeeds | Tools/DumpRenderTree/CyclicRedundancyCheck.cpp:59-61 | the byte-wise register equals feeding the message one bit at a time, lowest bit first |
| CrcRemainder.FeedDivides | Tools/DumpRenderTree/CyclicRedundancyCheck.cpp:36-48 | the register computes the remainder of the message, with its start value added to the front, by long division |
| CrcRemainder.CrcIsRemainder | Tools/DumpRenderTree/CyclicRedundancyCheck.cpp:50-63 | the check value is the complemented remainder of the message, padded with 32 zeros and with its first 32 bits complemented, modulo the generator polynomial of section 3.4 of RFC 2083 |
| CrcRemainder.CrcDivides | Tools/DumpRenderTree/CyclicRedundancyCheck.cpp:50-63 | it is the only word for which the padded message is a multiple of the generator plus the word's complement |
| CrcRemainder.CheckValue | Tools/DumpRenderTree/CyclicRedundancyCheck.cpp:50-63 | the check value of the digits 1 to 9 is 0xCBF43926 |
| CrcBurst.BurstDetected | Tools/DumpRenderTree/CyclicRedundancyCheck.cpp:36-63 | messages that differ only within 32 consecutive bits have different check values |
| CrcBurst.FourBytesDetected | Tools/DumpRenderTree/CyclicRedundancyCheck.cpp:36-63 | buffers of equal length that differ only within four consecutive bytes have different check values |
| Png.ByteVector.AppendInt | Tools/DumpRenderTree/PixelDumpSupport.cpp:77-85 | the four bytes appended are the number, most significant first |
| Png.ConvertChecksumToPNGComment | Tools/DumpRenderTree/PixelDumpSupport.cpp:87-103 | the bytes appended are a text chunk with length, type, data and check value |
| Png.WriteTail | Tools/DumpRenderTree/PixelDumpSupport.cpp:125-135 | writing in blocks up to the first short write puts out what one write would |
| Png.PrintPNG | Tools/DumpRenderTree/PixelDumpSupport.cpp:112-136 | the announced length is that of the body, and the output takes the body as far as it has room |
| Png.CommentReads | Tools/DumpRenderTree/PixelDumpSupport.cpp:87-103 | a PNG chunk reader gets back the text chunk with its keyword, the 32 characters and a valid check value |
| Png.TextSays | Tools/DumpRenderTree/PixelDumpSupport.cpp:89-95 | a reader that splits the text chunk at its first zero byte gets the keyword checksum and the 32 characters |
| Png.CommentInserted | Tools/DumpRenderTree/PixelDumpSupport.cpp:77-136 | a reader of the body recovers the original chunks with that one chunk after the header |
| Packages.Downloader.AddPackageAndDependencies | Tools/CygwinDownloader/cygwin-downloader.py:118-126 | on any graph, cyclic or with unknown names, the call ends, marks only what the name reaches, and leaves new marks closed under requirements |
| Packages.Downloader.SelectPackages | Tools/CygwinDownloader/cygwin-downloader.py:128-130 | the selected names are exactly the known packages reachable from an initially flagged one |
| Packages.CountDownloads | Tools/CygwinDownloader/cygwin-downloader.py:132-136 | each flagged package is announced once, in the order of the list |
| Packages.DownloadAll | Tools/CygwinDownloader/cygwin-downloader.py:114-136 | exactly the needed packages are downloaded, once each and in the order of the list, and the announced total is their number |
| WorkQueue.Queue.Enqueue | Tools/DumpRenderTree/WorkQueue.cpp:52-63 | an item joins the accepted ones unless the queue is frozen, and the assertion fails exactly when the slots are used up |
| WorkQueue.Queue.Dequeue | Tools/DumpRenderTree/WorkQueue.cpp:65-73 | items come out in the order of acceptance, and nothing at the end |
| WorkQueue.Queue.Count | Tools/DumpRenderTree/WorkQueue.cpp:75-78 | the number of items still waiting |
| WorkQueue.Queue.Clear | Tools/DumpRenderTree/WorkQueue.cpp:80-89 | the waiting slots are emptied and both ends return to the start |
| WorkQueue.Queue.Invoke | Tools/DumpRenderTree/WorkQueue.cpp:52-63 | an invoked item has all its items queued, or none on a frozen queue, unless it asks for a slot when none is left |
| WorkQueue.Queue.ProcessWork | Tools/DumpRenderTree/WorkQueue.cpp:91-104 | the slot assertion fails if and only if the whole run needs more slots than there are, at the first item that asks for one too many; otherwise the items run, the items left and the result are those of the queue's run in order up to the first load |
| WorkQueue.Queue.OutcomeMeans | Tools/DumpRenderTree/WorkQueue.cpp:91-104 | true means drained without a load, false means that the last item run and no other started one; at most 1024 items run between clears |
| WorkQueue.SlotsRunOut | Tools/DumpRenderTree/WorkQueue.cpp:54 | one item that queues 1024 others makes the slot assertion fail |
| WorkQueueManager.Manager.Enqueue | Tools/WebKitTestRunner/WorkQueueManager.cpp:216-226 | an item is accepted exactly when no load is being waited for, as the call history says |
| WorkQueueManager.Manager.ClearWorkQueue | Tools/WebKitTestRunner/WorkQueueManager.cpp:112-116 | the manager is as new |
| WorkQueueManager.Manager.ProcessWorkQueue | Tools/WebKitTestRunner/WorkQueueManager.cpp:118-127 | items run in order including those queued on the way, up to the first load; done exactly when the queue drained without one |
| WorkItems.RunQueueBalance | Tools/WebKitTestRunner/WorkQueueManager.cpp:118-127 | the items run and the items left are the old queue and everything queued on the way, in that order |
| WorkQueueManager.FirstInFirstOut | Tools/WebKitTestRunner/WorkQueueManager.cpp:112-127 | over every sequence of calls, accepted items run in order, once each, and none is lost |
| WorkQueueManager.AcceptedWhenIdle | Tools/WebKitTestRunner/WorkQueueManager.cpp:112-116 | an offer is accepted whenever no load is pending, in particular after a clear |
| WorkQueueManager.ProcessingIff | Tools/WebKitTestRunner/WorkQueueManager.cpp:118-127 | a load is pending if and only if the last call other than an offer processed the queue and started one |
| WorkQueueManager.RefusedWhileLoading | Tools/WebKitTestRunner/WorkQueueManager.cpp:216-226 | while a load is pending every offer is refused and the queue stays as it was |
| CommandLine.CommandTokenizer.constructor | Tools/DumpRenderTree/DumpRenderTreeCommon.cpp:12-17 | a new tokenizer has all tokens of the line before it |
| CommandLine.CommandTokenizer.Pump | Tools/DumpRenderTree/DumpRenderTreeCommon.cpp:30-40 | moves to the token behind the last separator |
| CommandLine.CommandTokenizer.Next | Tools/DumpRenderTree/DumpRenderTreeCommon.cpp:42-49 | takes exactly the first remaining token |
| CommandLine.CommandTokenizer.HasNext | Tools/DumpRenderTree/DumpRenderTreeCommon.cpp:51-54 | tells whether a token remains |
| CommandLine.TokensJoin | Tools/DumpRenderTree/DumpRenderTreeCommon.cpp:30-54 | tokenising the quote-joined form of non-empty quote-free tokens gives them back |
| CommandLine.QuoteSeparates | Tools/DumpRenderTree/DumpRenderTreeCommon.cpp:24 | two texts without quotes joined by a quote are two tokens |
| CommandLine.JoinSplit | Tools/DumpRenderTree/DumpRenderTreeCommon.cpp:30-40 | joining the pieces between separators restores the line |
| CommandLine.ParseInputLine | Tools/DumpRenderTree/DumpRenderTreeCommon.cpp:62-85 | the loop parses the token list, dies on the first unknown option and asserts on a missing timeout |
| CommandLine.TokensMean | Tools/DumpRenderTree/DumpRenderTreeCommon.cpp:62-85 | every token list is a path, complete settings and a rest; it parses to the path with the settings applied when the rest is empty or a lone pixel option, asserts when it is a lone timeout option, and dies otherwise or when the list is empty |
| CommandLine.ParseInvertsPrint | Tools/DumpRenderTree/DumpRenderTreeCommon.cpp:62-85 | parsing undoes printing for every command, in every spelling, with the pixel option last |
| CommandLine.PixelSwallows | Tools/DumpRenderTree/DumpRenderTreeCommon.cpp:76-81 | a pixel option without a hash swallows a timeout option that follows it, and the parser dies |
| CommandLine.PixelsFirstIff | Tools/DumpRenderTree/DumpRenderTreeCommon.cpp:71-82 | with the pixel option first, a command parses back if and only if it has no pixel option, a hash, or no timeout option |

## Left out

- KeywordGenerator.FillOut: returns the annotated tree as a value, where the source stores the same fields in the trie objects.
- KeywordGenerator.FillOut: adds weights as reals, so floating-point rounding of sums is not captured.
- KeywordGenerator.PrintSubTree: emits a syntax tree, not C++ text; indentation and the surrounding function headers are not captured.
- CompareMacros.CompareExact: covers the aligned-access, little-endian and x86-64 definitions; the big-endian quad macro of 16-bit units refers to itself and has no meaning to model.
- LinkTables.RootedIff: leaves out modules that give one new name both a self-parented and an ordinary child line, where the outcome depends on which of them the worklist reaches first; LinkTables.ParentsPrecede, LinkTables.ConsistentRooted and, for each step, LinkTables.StaysRooted hold for those too.
- KeywordComparisons.FewestComparisons: asks that a weighted word that is no keyword starts no keyword; the weight of such a word would steer the order without being spent on any keyword.
- CompareMacros.CompareExact: takes keyword units to be ASCII, as the script's own table is; a literal above 0x7F is a negative char on some targets.
- Combiner.Combine: starts from definitions and lines already told apart by their patterns; reading the input, the pass-through of an already combined module and the layout of the printed tables are not captured.
- Combiner.Linker.Resolve: reports a sweep without progress as failure, where the source repeats it for ever.
- Threads.StepKeeps: each critical section that only calls JavaScriptCore is one step without other effects, and thread creation always succeeds.
- Threads.CleanStop: a join on a detached thread is taken to return at once; that all threads have finished before the context group is released is not claimed, since a detached one may still be cleaning up.
- Png.PrintPNG: asks for at least 33 bytes of image and 32 of checksum, which the source reads unchecked; the content-type line is not captured.
- Png.CommentInserted: asks for a header chunk with 13 bytes of data, which the fixed insertion offset presupposes.
- WorkQueue.Queue.ProcessWork: a work item is a finite tree of the items it queues; items that queue new copies of themselves without end are not captured, nor is an item that clears or freezes the queue while it runs.
- WorkQueueManager.Manager.ProcessWorkQueue: the same finite work items; the platform calls behind them are not captured.
- CommandLine.ParseInputLine: numbers are unbounded, so the overflow of atoi is not captured.
- Packages.DownloadAll: the network, the progress display and the parsing of setup.ini are not captured.
- The copies of the CRC, PNG and tokenizer code in Tools/WebKitTestRunner would only repeat these members.
- The launchers, the accessibility and test-runner bindings, jsc.cpp and the other build scripts are user interface, wrappers or input and output.
