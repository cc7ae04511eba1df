# netcache, modelled and verified in Dafny

netcache is a cache server. Its file cache keeps each item's bytes in a file and its key and TTL in an in-memory
binary search tree; a worker writes files and sweeps out expired items; a client and the server talk over TCP in
length-prefixed binary messages. This project models that core and proves what it promises, and exactly where it
does not.

Verify everything with `dafny verify dfyconfig.toml`.

| file | what it holds |
|---|---|
| `Keys.dfy`, `Items.dfy` | byte-string keys: their order, validity and hash; cache items |
| `Trees.dfy` | what a pointer tree means: trees as values that still name their heap nodes; insert, remove, order, height, levels |
| `Pruning.dfy` | deleting by a stateful predicate: the tree left, the count, the calls, the tree seen during them |
| `TreeNode.dfy`, `InterfacedBST.dfy` | the in-place node operations and the tree object, each tied to a function of the tree before |
| `FileSystem.dfy` | the file tree as a value, paths, an item's write, read and delete |
| `PlainMap.dfy` | the plain map a file cache stands for, and what holds over all its runs: values, deadlines, eviction |
| `Linkage.dfy`, `FileCache.dfy` | the file cache object and its refinement of the plain map, step by step |
| `Overlap.dfy` | operations as steps on counters and files: a Set is two of them with anything between; how long tree entries stay |
| `Session.dfy` | whole runs of one file cache, from an empty directory of its own |
| `Contention.dfy` | the mutex when Delete goes on without it |
| `SetProtocol.dfy` | many `Set` callers, the worker, its queue, the reply channels and the mutex, interleaved |
| `SetTrace.dfy` | the same as its steps alone tell it: whose reply is whose, and which Sets take the mutex |
| `MemoryCache.dfy` | the in-memory cache and its measured TTLs |
| `Wire.dfy` | the message format and the methods that write and read it |
| `Dialogue.dfy`, `Client.dfy`, `KeyList.dfy` | the server's loop, the client's calls, sessions, and the key list end to end |
| `Service.dfy` | a client's session with a server on the file cache: what each call reports, from the calls alone |

How the heap is described. A ghost `Tree` value names the nodes and items of the heap below a pointer, and `Rep` says
that the heap is laid out that way, without sharing or cycles. Each in-place operation ends in the layout given by a
function of the layout before it, so which node goes where is part of every contract; the properties of those functions
are lemmas. During `deleteIf` a context (`Around`) describes the part of the tree above the walk.

How callbacks are described. A function passed to `DeleteIf` or `Traverse` is a pure step on a state of its own, which
stands for the variables it captures. The predicate of `DeleteIf` is also given what a search from the root, in the
half-rewritten tree, finds for the item, because `cleanup` makes that search; and it may change the item's TTL.

How the file cache is described. `history` records the steps a cache has taken; `Plain()` is the plain map after them.
Each operation appends its step and answers as the plain map does. Time is a parameter, `now`. The two ways in which the
program itself ends, a nil dereference in `Get` and a double unlock in `Delete`, are results, with the exact condition
for each. What a key's history says (its last Set, the sweeps since then, what reads have drained) is a set of functions
of the events alone; the plain map keeps only bytes and counters, and is proved to agree with them. The contracts also
say what each operation does to the counters and files (`View`), in the terms in which `Overlap.dfy` interleaves them.

Three properties that the code does not have in general, with the exact condition for each. A hit may come after its true
deadline: `PlainMap.InTimeIff` says when for one item, `PlainMap.LateForASet` for one Set and the sweep after it, and
`Session.GetsInTimeIff` for whole schedules, where it is avoided if and only if no two sweeps are more than an interval
apart. And a Set that returned no error may have lost its file before it inserted its entry, or have got the bytes of
another Set of the same key: `Overlap.SetKeepsFileIff` says when, whatever comes between. And under contention
a call that holds the mutex keeps it if and only if no Delete meanwhile misses its item, `Contention.HolderKeepsIff`.

Where the code and its comments disagree, the code is followed: the message comment in `src/protocols/proto.go:42-46`
leaves out the 8-byte size that `WriteTo` puts before the body, and `Len` (`src/cache/binarytree/interfaced_bst.go:129-132`)
is not always the number of values, because `deleteIf` drops the count of its left subtree.

Main results: `InterfacedTree.InterfacedBST.DeleteIf`, `Pruning.CounterDrift`, `FileCaches.FileCache.Get`, `Set`,
`Delete`, `Tick`, `Session.Play`, `Session.HitMeans`, `Session.GetsInTimeIff`, `Session.EntryEvicted`,
`PlainMap.AlwaysAccounted`, `PlainMap.InTimeIff`, `Overlap.SetKeepsFileIff`, `Contention.HolderKeepsIff`,
`SetProtocol.Safety`, `SetProtocol.NeverBlockedIff`, `SetTrace.AllAreServed`, `MemoryCaches.Play`,
`Wire.StreamRoundTrip`, `Wire.FrameBound`, `Client.Converse`, `Service.ConverseWithCache`, `Client.ListKeys`.

## Model

| member | source | states |
|---|---|---|
| Keys.LessIsLexicographic | src/cache/item.go:183-193 | `Equals`, `Lt` and `Gt` rest on a strict total order: the lexicographic order of byte strings, characterised by the first difference |
| Keys.CheckKey | src/cache/item.go:76-89 | a key is accepted exactly when it has 2 to 64 characters, all of the class [a-zA-Z0-9._-]; which reason it is refused with otherwise |
| Keys.StrHash | src/cache/hash.go:14-23 | the loop that wraps at every step computes the base-63 polynomial of the bytes reduced once modulo 2^64 |
| Keys.HashConcat | src/cache/hash.go:14-23 | the hash of a concatenation from the hashes of its parts, in 64-bit arithmetic |
| Keys.HashCollides | src/cache/hash.go:19-21 | two valid keys with the same hash |
| Items.NewItem | src/cache/item.go:45-62 | which error a new item is refused with, in which order, and the fields it has otherwise |
| Items.NewItemKey | src/cache/item.go:64-74 | a key item exists exactly for valid keys |
| Trees.FindIff | src/cache/binarytree/interfaced_bst_node.go:43-58 | search in a search tree finds exactly the items that are there |
| Trees.PutElems | src/cache/binarytree/interfaced_bst_node.go:22-41 | inserting replaces the item of an equal key and keeps all others |
| Trees.PutOrder | src/cache/binarytree/interfaced_bst_node.go:22-41 | inserting keeps the search order |
| Trees.PutFootprint | src/cache/binarytree/interfaced_bst_node.go:22-41 | the footprint grows by the new node, and only for a new key |
| Trees.DropLeastOrder | src/cache/binarytree/interfaced_bst_node.go:87-90 | deleting the minimum's own value from the right subtree takes out exactly the minimum |
| Trees.RemoveElems | src/cache/binarytree/interfaced_bst_node.go:70-94 | delete loses exactly the item of the key |
| Trees.RemoveOrder | src/cache/binarytree/interfaced_bst_node.go:70-94 | delete keeps the search order |
| Trees.RemoveFootprint | src/cache/binarytree/interfaced_bst_node.go:70-94 | the footprint loses exactly the node that held the key; no sharing and no cycle arises |
| Trees.RemoveShrinks | src/cache/binarytree/interfaced_bst_node.go:70-94 | delete lowers the size by one exactly for a present key and never raises the height |
| Trees.SearchTreeIffSorted | src/cache/binarytree/interfaced_bst_node.go:60-68 | a tree is a search tree exactly when traversal meets strictly increasing keys |
| Trees.SizeWithinHeight | src/cache/binarytree/interfaced_bst_node.go:129-142 | size is at most 2^height - 1 |
| Trees.LevelsCover | src/cache/binarytree/interfaced_bst.go:148-156 | the first height levels hold the tree's items, as a multiset; in a search tree each item exactly once |
| Pruning.PruneFilters | src/cache/binarytree/interfaced_bst_node.go:96-119 | what deleteIf leaves is, in order, the old list without the items answered true |
| Pruning.PruneOrder | src/cache/binarytree/interfaced_bst_node.go:96-119 | deleteIf keeps the search order |
| Pruning.PruneShrinks | src/cache/binarytree/interfaced_bst_node.go:96-119 | deleteIf removes exactly the items answered true and never raises the height |
| Pruning.PruneFootprint | src/cache/binarytree/interfaced_bst_node.go:96-119 | the footprint loses exactly the nodes that held a taken item |
| Pruning.CounterDrift | src/cache/binarytree/interfaced_bst_node.go:101-105 | the counter stays at least the size and drifts by exactly the hits off the right spine; it stays exact if and only if there are none; with both subtree counts added it always would |
| Pruning.CounterCanDrift | src/cache/binarytree/interfaced_bst_node.go:101-102 | a two-node tree on which the counter ends too high |
| Pruning.FoundInHole | src/cache/binarytree/interfaced_bst_node.go:43-58 | in any tree seen during the walk, a search for an item in the part under examination ends at that item |
| TreeNode.Insert | src/cache/binarytree/interfaced_bst_node.go:22-41 | the in-place insert: the layout after it, and its answer |
| TreeNode.Search | src/cache/binarytree/interfaced_bst_node.go:43-58 | the pointer search answers as the search of the layout |
| TreeNode.Traverse | src/cache/binarytree/interfaced_bst_node.go:60-68 | the callback is applied to every item in key order |
| TreeNode.FindMin | src/cache/binarytree/interfaced_bst_node.go:121-127 | the loop ends at the node of the least item |
| TreeNode.TakeOut | src/cache/binarytree/interfaced_bst_node.go:79-91 | the successor's node itself is moved up, with the left subtree and the rest of the right one below it |
| TreeNode.Delete | src/cache/binarytree/interfaced_bst_node.go:70-94 | the in-place delete: the layout after it, only child pointers written, and its answer |
| TreeNode.Examine | src/cache/binarytree/interfaced_bst_node.go:104-118 | one predicate call: the search from the old root finds the item itself, and the node goes exactly on true |
| TreeNode.DeleteIf | src/cache/binarytree/interfaced_bst_node.go:96-119 | one call per original item, in post-order of the original tree; the layout left, the state, the TTLs, and a count of exactly the right spine's hits |
| TreeNode.GetHeight | src/cache/binarytree/interfaced_bst_node.go:129-142 | the height of the layout |
| TreeNode.FillNodes | src/cache/binarytree/interfaced_bst.go:148-156 | every row gets its level's items appended, left to right, and no index passes the height |
| InterfacedTree.InterfacedBST.Insert | src/cache/binarytree/interfaced_bst.go:78-89 | items, answer, layout, fresh node, and the counter in step with the size |
| InterfacedTree.InterfacedBST.Search | src/cache/binarytree/interfaced_bst.go:92-97 | finds the item with the key, or says that there is none |
| InterfacedTree.InterfacedBST.Delete | src/cache/binarytree/interfaced_bst.go:100-109 | items, answer, layout, footprint, height, and the counter in step with the size |
| InterfacedTree.InterfacedBST.DeleteIf | src/cache/binarytree/interfaced_bst.go:112-119 | for every stateful predicate: its calls, the filtered tree, the count, the footprint, and by how much the counter drifts |
| InterfacedTree.InterfacedBST.Traverse | src/cache/binarytree/interfaced_bst.go:122-127 | the fold of the callback over the items in key order |
| InterfacedTree.InterfacedBST.GetHeight | src/cache/binarytree/interfaced_bst.go:135-140 | the height: the lowest level that holds something is the last within it; and the size bound it gives |
| InterfacedTree.InterfacedBST.Rows | src/cache/binarytree/interfaced_bst.go:40-43 | the rows are the levels, none of them empty; each item of the tree stands on them exactly once, and nothing else |
| FileSystem.PathsInjective | src/cache/item.go:177-181 | file paths of valid keys other than ".." are injective, whatever the hashes, and no hash directory is a file's path |
| FileSystem.WriteOne | src/cache/item.go:91-122 | one reply, success, exactly one file changed, and exactly its directories made |
| FileSystem.WriteDotDot | src/cache/item.go:91-112 | ".." is a valid key whose write always fails and changes no file, but makes its hash directory |
| FileSystem.DeleteOne | src/cache/item.go:150-175 | success, that file gone, every other file kept; if it was there its hash directory goes exactly if nothing else is in it, and no other directory changes |
| FileSystem.Decimal | src/cache/item.go:177-181 | the hash directory's name: decimal digits that read back as the hash, without a leading zero |
| FileSystem.ReadMeans | src/cache/item.go:124-148 | a read finds an item expired exactly when no time is left, and then removes its file; otherwise it gives the bytes exactly if there is a file |
| FileSystem.OtherFilesUntouched | src/cache/item.go:91-175 | one key's write or delete leaves another key's file as it was, even when their hashes collide |
| PlainMap.AlwaysAccounted | src/cache/file_cache.go:126-328 | over every run, from the events alone: a key is live exactly if it was set, not deleted or cleared since, and its ttl is greater than sweeps times interval plus what reads drained; it then has the bytes of that Set and the difference as its counter |
| PlainMap.LiveEverSince | src/cache/file_cache.go:126-328 | a live entry goes back to one Set, with no other Set, Delete or Clear after it, and was live after every step since |
| PlainMap.AnsweredUntil | src/cache/file_cache.go:170-177 | the exact moments at which a Get after a given run is a hit |
| PlainMap.HitFacts | src/cache/file_cache.go:170-177 | a hit's bytes and ttl from the events, and a bound on its time: the deadline, moved by how late sweeps were since the Set |
| PlainMap.InTimeIff | src/cache/file_cache.go:170-177 | for any item, read or not: its hits all come before the true deadline if and only if the last sweep, less what has been spent, is no later than the Set, or the time in which it would be answered is over |
| PlainMap.LateForASet | src/cache/file_cache.go:301-328 | an item set at any moment before a sweep can outlive its deadline if and only if that sweep comes more than an interval after the Set |
| PlainMap.ScheduleInTimeIff | src/cache/file_cache.go:301-305 | for every schedule of sweeps and every key: no run of events swept at these times has a hit at or after its deadline if and only if no two sweeps are more than an interval apart |
| PlainMap.LateSweepOverstays | src/cache/file_cache.go:301-328 | an instance: one late sweep, and exactly the moments at and after the deadline at which the item is still answered |
| PlainMap.EvictedInTime | src/cache/file_cache.go:312-328 | an item not set again is not live after ceil(ttl / interval) sweeps; for its entry in the tree see Session.EntryEvicted |
| PlainMap.EvictedExactly | src/cache/file_cache.go:312-328 | an item not read is live, with its bytes and the exact time left, exactly until that sweep and while it is not deleted or cleared |
| Linkage.LinkRead | src/cache/file_cache.go:161-177 | a read of a key with a file lowers both counters, or takes the key out of both |
| Linkage.LinkStale | src/cache/file_cache.go:161-166 | a tree entry without its file is not live, and what happens to it does not show |
| Linkage.LinkClear | src/cache/file_cache.go:198-215 | removing the files of all items empties the plain map, although the tree keeps its entries |
| Linkage.LinkSweep | src/cache/file_cache.go:312-328 | lowering all counters and removing the files of those used up is the plain map's sweep |
| Linkage.ReadOutcome | src/cache/item.go:124-148 | for an item in the tree `read` gives its bytes or "not exist"; the expired branch and all other errors cannot come about |
| FileCaches.CleanupCalls | src/cache/file_cache.go:260-328 | in a whole sweep no re-entrant delete misses its item: no panic, the lock still held, exactly the items that ran out taken and their files gone |
| FileCaches.KeysVisits | src/cache/file_cache.go:221-226 | the key array is filled from the front and never indexed past its end |
| FileCaches.ClearVisits | src/cache/file_cache.go:203-208 | Clear's walk meets no error and removes exactly the items' files |
| FileCaches.IntegrityCalls | src/cache/file_cache.go:88-95 | exactly the items at whose path there is nothing are noted and taken |
| FileCaches.FileCache.constructor | src/cache/file_cache.go:39-48 | the empty cache, its worker started, stands for the empty plain map |
| FileCaches.FileCache.FilesBelong | src/cache/file_cache.go:126-282 | a key has a file exactly when it is live; live keys are in the tree, and all tree keys are live if there was never a Clear; no item in the tree has run out |
| FileCaches.FileCache.Get | src/cache/file_cache.go:150-178 | answers as the plain map does: a hit has the bytes of the last Set, its ttl less what sweeps and reads took, and comes before the deadline moved by late sweeps; it crashes exactly for an invalid key and a tree that is not empty |
| FileCaches.FileCache.Set | src/cache/file_cache.go:126-147 | each refusal and its reason, with nothing changed; otherwise the plain map's Set, one file written, and `inserted` exactly for a key not in the tree |
| FileCaches.FileCache.Has | src/cache/file_cache.go:241-258 | the exact answer from the tree entry; it agrees with the plain map exactly unless, before the call, the key is in the tree with more than the elapsed time left and has no file, which cannot be in a cache never cleared |
| FileCaches.FileCache.Delete | src/cache/file_cache.go:181-196 | with nobody else at the mutex, deletes exactly the keys in the tree, with their files and the hash directories this empties; for a valid key not in it the mutex is unlocked twice, and nothing else changes |
| FileCaches.FileCache.UnderLock | src/cache/file_cache.go:260-282 | with the mutex free, `delete` either removes the file and gives the mutex back or unlocks twice |
| FileCaches.FileCache.Clear | src/cache/file_cache.go:199-215 | no error, exactly the items' files gone, the plain map empty, the tree as it was |
| FileCaches.FileCache.Keys | src/cache/file_cache.go:218-228 | the keys in order, then as many empty strings as the counter is too high by |
| FileCaches.FileCache.Tick | src/cache/file_cache.go:301-328 | the worker's sweep is the plain map's sweep, without a panic |
| FileCaches.FileCache.VerifyIntegrity | src/cache/file_cache.go:85-98 | an item stays exactly if there is something at its path; the errors are one for each item removed, none exactly if nothing was; in a running cache the keys left are exactly the live ones |
| Session.Play | src/cache/file_cache.go:126-328 | in every run each operation is answered as the operations before it say: Get as the plain map, Set, Has and Delete from the counters in the tree; the run ends early if and only if it has a Get of an invalid key while the tree is not empty or a Delete of a valid key not in the tree, and then exactly there |
| Session.HitMeans | src/cache/file_cache.go:126-178 | in every run a hit goes back to one Set of the key: its bytes, its ttl less what was spent, no other Set, Delete or Clear since, live after every step since, and before its deadline moved by late sweeps |
| Session.Realised | src/cache/file_cache.go:126-328 | every history of the plain map over file keys is what some run of operations records |
| Session.GetsInTimeIff | src/cache/file_cache.go:150-178 | for every schedule of sweeps: in all runs of operations that go on to their end, every hit of a key comes before the true deadline of its Set if and only if no two sweeps are more than an interval apart |
| Session.EntryEvicted | src/cache/file_cache.go:312-328 | over every run, cleared or not: a stored item is out of the tree after at most ceil(ttl / interval) sweeps unless stored again; one not read or deleted either is in the tree, with the exact time left, exactly until that sweep |
| Session.YesAfterClear | src/cache/file_cache.go:199-258 | after a Clear, Has says yes for an item with time left that Get does not find |
| Session.GetTellsLatest | src/cache/file_cache.go:126-178 | in every run a Get is answered with the bytes last stored for the key, no Delete or Clear since, and what is left of that ttl; with nothing exactly if there is no such operation or nothing is left |
| Overlap.KeysApart | src/cache/file_cache.go:126-328 | what any step does to one key's file and counter depends on that key alone |
| Overlap.StaysIffSpared | src/cache/file_cache.go:199-328 | a file that is there stays, with its bytes, exactly while no Clear, Delete or used-up counter meets its key in the tree; the counter is the last one inserted less what sweeps and reads took |
| Overlap.SetKeepsFileIff | src/cache/file_cache.go:126-147 | whatever comes between the write and the insert of a Set, other Sets of the key included: its entry is there afterwards, its file if and only if nothing has taken it since the last write of the key, with the bytes of that write, which is this Set's own exactly if no other came between |
| Overlap.LoneSetKeepsFileIff | src/cache/file_cache.go:126-147 | without another Set of the key in between: the file is there if and only if the key was not in the tree before, or there was no Clear and no Delete of it and the old counter was not used up |
| Overlap.TwoSetsMixed | src/cache/file_cache.go:135-145 | an instance: two overlapping Sets leave the bytes of one with the ttl of the other, and with a Clear between, no file |
| Overlap.EntryEvicted | src/cache/file_cache.go:312-328 | from any counters and files: an entry not inserted again is gone after at most ceil(time left / interval) sweeps; not read or deleted either, exactly then |
| Overlap.SweptAway | src/cache/file_cache.go:126-147 | an instance: a sweep between the two takes the file, and the next Get does not find what was just set |
| Contention.HolderKeepsIff | src/cache/file_cache.go:260-269 | in every run of other calls, the call that holds the mutex keeps it, alone, if and only if no Delete meanwhile fails to find its item |
| Contention.ExclusiveWithoutMisses | src/cache/file_cache.go:260-282 | in every interleaving in which each Delete finds its item, at most one call has the mutex at a time and the program goes on |
| Contention.MissBreaks | src/cache/file_cache.go:260-269 | a miss without the lock takes it from its holder, so that two calls can have it; a miss with the lock ends the program or frees the mutex under another call |
| SetProtocol.StepKeeps | src/cache/file_cache.go:126-147 | every step of every interleaving of the calls that newItem admits keeps the protocol's invariant |
| SetProtocol.Safety | src/cache/file_cache.go:126-147 | for calls that newItem admits, the worker sending all that the item's write sends: no send blocks, nobody waits on queue or reply with the mutex held, and each Set receives exactly one reply |
| SetProtocol.NeverBlockedIff | src/cache/item.go:45-48 | the worker never finds a reply channel full, in any interleaving, if and only if every ttl that may be pushed is longer than a second |
| SetProtocol.SomeStepServes | src/cache/file_cache.go:284-309 | while anything is unfinished, some step that serves it can be taken |
| SetProtocol.ServiceIsBounded | src/cache/file_cache.go:284-309 | serving steps, in any order, are at most as many as the work left |
| SetProtocol.AllReturn | src/cache/file_cache.go:126-147 | from every state reached, all calls can be served to the end, each Set with the one reply it was sent |
| SetTrace.WrittenSetsLock | src/cache/file_cache.go:135-147 | over every run, from its steps: a Set receives what the write of its own item sent, items being written in the order of the pushes; after an error it never locks the mutex, and otherwise, once finished, it has locked and then unlocked it after the reply |
| SetTrace.AllAreServed | src/cache/file_cache.go:126-147 | after every run, serving steps lead to a state where all calls have returned, and every Set has gone through its steps in that order |
| SetProtocol.RepliesSent | src/cache/item.go:91-122 | a write sends exactly one reply if the ttl is longer than a second, and two otherwise, the first of them that it is too short |
| MemoryCaches.MemoryCache.Get | src/cache/mem_cache.go:79-88 | the entry with its time lowered, expired or not; a positive answer is before the deadline |
| MemoryCaches.MemoryCache.Has | src/cache/mem_cache.go:128-137 | the same for Has, recorded as a read of that key alone |
| MemoryCaches.MemoryCache.Set | src/cache/mem_cache.go:65-77 | the entry replaces what was there |
| MemoryCaches.MemoryCache.Delete | src/cache/mem_cache.go:90-99 | removes the entry, or says that there is none; the history of other keys stays |
| MemoryCaches.MemoryCache.Clear | src/cache/mem_cache.go:101-106 | the cache is empty |
| MemoryCaches.MemoryCache.Sweep | src/cache/mem_cache.go:139-153 | in any order of the entries: only those whose deadline is to come stay, and one never read stays exactly until its shortened time is used up |
| MemoryCaches.PositiveIsUnexpired | src/cache/mem_cache.go:79-88 | over every run: a positive time, or staying through a sweep, means that the deadline of the last Set has not passed; the exact sweep for a key never read |
| MemoryCaches.Play | src/cache/mem_cache.go:65-153 | in every run of operations each Get and Has is answered as the operations before it say, and a positive time means now is before the deadline of the last Set of the key |
| Wire.Int64RoundTrip | src/protocols/proto.go:72-84 | eight bytes and the signed 64-bit integers correspond one to one |
| Wire.LittleDigits | src/protocols/proto.go:72-84 | the low byte comes first: each byte is its digit in base 256 |
| Wire.KindByte | src/protocols/proto.go:16-27 | the number of each kind of message, in the byte after the size |
| Wire.PanicIff | src/protocols/proto.go:154-173 | reading panics exactly at a complete length that is negative or above 2^48 |
| Wire.RoundTrip | src/protocols/proto.go:127-180 | reading an encoded message gives it back and consumes exactly its frame, whatever follows |
| Wire.StreamRoundTrip | src/protocols/proto.go:127-180 | reading a concatenation of frames gives the list of messages back |
| Wire.PrefixRefused | src/protocols/proto.go:133-142 | every strict prefix of a frame is refused |
| Wire.FrameBound | src/protocols/proto.go:133-179 | a frame read holds at least its message, and exactly it if and only if encoding the message gives the consumed bytes |
| Wire.Message.WriteTo | src/protocols/proto.go:63-98 | appends the frame and returns 25 plus the two lengths |
| Wire.Message.ReadFrom | src/protocols/proto.go:127-180 | message, result, consumed bytes and overwritten fields for every input: errors, and the panic of `make` on a length that is negative or beyond what a 64-bit machine addresses |
| Wire.WriteEnd | src/protocols/proto.go:54-61 | appends one END frame, byte for byte |
| Dialogue.HandleGet | src/server/handlers.go:21-39 | the reply carries the cache's value and TTL, or nothing is written and the error is returned |
| Dialogue.HandleHas | src/server/handlers.go:74-88 | the reply carries the text "true" if the key is there and "false" otherwise |
| Dialogue.HandleKeys | src/server/handlers.go:90-107 | the reply carries the keys joined by commas |
| Dialogue.HandlePing | src/server/handlers.go:109-124 | a PONG |
| Dialogue.Respond | src/server/server.go:245-303 | writes exactly the replies to the request that was read |
| Dialogue.Serve | src/server/server.go:231-306 | one turn of the loop consumes one request, asks the cache with that request, and writes exactly its replies; it gives the connection up on a read error, or panics on an impossible length |
| KeyList.SplitMeans | src/client/client.go:383 | splitting undoes joining by commas, for every string, and no part holds a comma |
| KeyList.TrimSpaceMeans | src/client/client.go:385 | white space alone is trimmed, and all of it, at both ends |
| KeyList.ParseKeys | src/client/client.go:382-392 | the loop trims every part of the split list |
| KeyList.ListArrives | src/client/client.go:382-390 | however much padding follows them, valid keys survive join, trim and split; without any key one empty string arrives |
| KeyList.TreeArrives | src/cache/file_cache.go:218-228 | the list that arrives is the tree's keys, all of them, strictly increasing, exactly when the tree is not empty |
| Client.EnoughToRead | src/client/client.go:130-168 | no call waits for a message that will not come, and it reads all there is exactly when nothing was left before it and it does not leave its own END |
| Client.OwnAnswer | src/client/client.go:155-184 | on a connection in step every call reports the cache's answer to its own request, and only a Ping or a Has that does not decode leaves something: one END |
| Client.InStepIff | src/client/client.go:237-346 | the messages a session leaves, with any answers, are none exactly when it has no Ping and no Has whose answer the serializer refuses |
| Client.Converse | src/client/client.go:130-393 | a whole session run on a connection, with any answers: what every call reports and what is left unread; nothing is left if and only if it has no Ping and no Has that does not decode, and then every call reports the answer to its own request, Has a yes whatever it is |
| Client.StaleEnd | src/client/client.go:237-260 | after a Ping, a Delete that the cache refused reports success |
| Client.ListenForEnd | src/client/client.go:395-407 | reads one message and reports what it is |
| Client.DoGet | src/client/client.go:130-184 | result and messages left, for every state of the connection and every answer |
| Client.DoSet | src/client/client.go:192-235 | the same for Set; the request that reaches the server has exactly this key, value and ttl |
| Client.DoDelete | src/client/client.go:263-283 | the same for Delete |
| Client.DoClear | src/client/client.go:286-301 | the same for Clear |
| Client.DoKeys | src/client/client.go:350-393 | the same for Keys |
| Client.DoPing | src/client/client.go:237-260 | the same for Ping |
| Client.DoHas | src/client/client.go:304-346 | the same for Has, for any serializer: it says yes to whatever decodes, and leaves the END when nothing does |
| Client.ListKeys | src/client/client.go:350-393 | from the file cache's tree over the wire to the client's list, in order, with the connection in step afterwards |
| Service.Consult | src/server/handlers.go:21-88 | one request, handled on the file cache itself: which operation it is, with what key, value and ttl, and what the answer becomes |
| Service.CallTold | src/client/client.go:130-346 | a call's request and its reply pass on the cache's answer to the operation that the call names |
| Service.ConverseWithCache | src/client/client.go:130-393 | a whole session with a server on the file cache, others using the cache in between: every call reports what the file cache answers, after all operations before it, to the operation that the call names |
| Service.SetThenGet | src/client/client.go:130-235 | a Get directly after a Set of the same key reports that Set's bytes and what is left of its ttl |

## Left out

- The generic tree is modelled at the one element type it is used with, `*item`; `String`'s padding is not modelled, only its rows.
- Dump, Load, and the gob, JSON and XML encodings: a loaded tree is taken as given.
- The connection pool, timeouts, listeners, TLS, periodic saving, logging, flags and the Docker set-up.
- File-system faults: each file operation is one atomic step, and only the errors that the tree of files itself gives rise to occur. Partial writes and reads that overlap the worker's unlocked write are not modelled.
- Durations are unbounded integers; overflow of a 64-bit nanosecond count is not modelled.
- A file cache method is one step: the interleaving of Set with the worker and the mutex is `SetProtocol.dfy`, and what comes between its write and its insert is `Overlap.dfy`, on counters and files as values rather than on the cache object, whose invariant does not hold between the two. What `Delete` does to the mutex under contention is `Contention.dfy`; the tree access that it makes outside the lock is not modelled concurrently. Close is not modelled.
- Operations before the worker has started, a nil logger in the server's loop, and an interval that is not positive, which the ticker itself refuses, are excluded by preconditions or not modelled.
- The memory cache sweeps at one instant; the time the loop itself takes is not modelled. Its Keys and Len are left out.
- The serializers: in Get and Set values are bytes, and in Has a serializer is any test of which texts decode as a bool.
- `NewInterfaced` (`src/cache/binarytree/interfaced_bst.go:72-75`), which nothing in the repository calls: it starts a tree with one node and a counter of zero, so there the counter is below the size.
- `strings.TrimSpace` is modelled on ASCII white space.
- Running out of memory: a length that `make` accepts is always allocated.
