# Gitlet, deques, hash map, search-tree map and hex world in Dafny

This project models the core of a Java coursework repository and proves
properties of the model:

- **Gitlet** (`proj2/gitlet`), a small version-control system. A repository
  holds a commit store, a branch registry (branch name to commit id, plus the
  current branch, HEAD), a staging area (files staged for addition and for
  removal, each file name to blob id) and a working directory.
  - `GitletCommit` holds commits as immutable snapshots. The SHA-1 commit id
    is taken to be collision-free, so an id determines its commit.
  - `GitletStaging` and `GitletBranch` are classes whose methods update their
    maps in place, as the Java objects do.
  - `GitletSpec` states what each command (`init`, `add`, `commit`, `rm`,
    `log`, `status`, `branch`, `rm-branch`, both `checkout`s, `reset`) does, as
    functions on one repository value. The lemmas about the commands live here.
  - `GitletRepository` runs the commands the way the source does: one step at
    a time through the staging area and branch objects, with loops over the
    file maps. Each command is proved to end in the state, and with the
    message, that `GitletSpec` gives. `StringOrder` is the order in which a
    `TreeMap` of branch names lists its keys.
- **Deques** (`proj1/deque`):
  - `LinkedListDeques` is a circular doubly-linked list with a sentinel.
  - `ArrayDeques` is a circular array that doubles when full and halves when a
    quarter full.
  - `MaxArrayDeques` is an array deque with `max` under a comparator.
  - `DequeContract` is the behaviour both deque classes promise, as a replay
    of client operations.
  - `DequeScenarios` holds the unit tests and the randomized comparison test,
    stated as methods with postconditions.
- **MyHashMap** (`lab8/hashmap`): separate chaining in an array of buckets,
  with `floorMod` hashing, doubling past a maximum load factor, and both
  `remove`s (module `HashMaps`).
- **BSTMap** (`lab7/bstmap`): an unbalanced binary search tree map whose
  `put` keeps the first value stored for a key (module `BSTMaps`).
- **HexWorld** (`proj3/byow/lab12`): drawing hexagons of tiles into a 2D
  grid, and a hexagonal tessellation of them (module `HexWorld`).

## Model

| member | source | states |
|---|---|---|
| GitletCommit.GetCommitID | proj2/gitlet/Commit.java:74-76 | loading the id gives back the commit it was computed from |
| GitletCommit.BlobIDIffContainsFile | proj2/gitlet/Commit.java:79-86 | a blob id is found exactly for the files the commit tracks, and it is the tracked blob |
| GitletCommit.CommitIDDeterministic | proj2/gitlet/Commit.java:74-76 | two commits get the same id if and only if all their fields are equal |
| GitletStaging.Staging.constructor | proj2/gitlet/Staging.java:20-23 | both staging maps start empty |
| GitletStaging.Staging.StageAdd | proj2/gitlet/Staging.java:38-40 | the addition map gains or overwrites the file's blob; the removal map is untouched |
| GitletStaging.Staging.CancelAdd | proj2/gitlet/Staging.java:43-45 | the file leaves the addition map; no-op when it is not staged; removals untouched |
| GitletStaging.Staging.StageRemove | proj2/gitlet/Staging.java:48-50 | the removal map gains or overwrites the file's blob; additions untouched |
| GitletStaging.Staging.CancelRemove | proj2/gitlet/Staging.java:53-55 | the file leaves the removal map; no-op when absent; additions untouched |
| GitletStaging.Staging.Clear | proj2/gitlet/Repository.java:159 | both maps become empty |
| GitletBranch.Branch.constructor | proj2/gitlet/Branch.java:29-34 | exactly one branch, `master`, at the given commit, and it is current |
| GitletBranch.Branch.ChangeHEAD | proj2/gitlet/Branch.java:37-39 | HEAD names the branch, existing or not; the registry is unchanged |
| GitletBranch.Branch.UpdateBranch | proj2/gitlet/Branch.java:42-44 | the current branch points at the commit; every other branch keeps its commit |
| GitletBranch.Branch.NewBranch | proj2/gitlet/Branch.java:47-49 | inserts or overwrites the one entry; HEAD unchanged |
| GitletBranch.Branch.RemoveBranch | proj2/gitlet/Repository.java:351 | deletes the one entry; HEAD unchanged |
| GitletBranch.Branch.PrintBranches | proj2/gitlet/Branch.java:77-87 | a header, each branch exactly once in strictly increasing name order with the current one starred, then a blank line |
| GitletRepository.Repository.Initialize | proj2/gitlet/Repository.java:42-69 | the repository is valid and in the `init` state: the origin commit stored, `master` current at it, nothing staged |
| GitletRepository.Repository.Add | proj2/gitlet/Repository.java:72-111 | state and message are those of `add`; the repository stays valid |
| GitletRepository.Repository.MakeCommit | proj2/gitlet/Repository.java:114-165 | state and message are those of `commit`; the snapshot built by the two loops is the parent's files with additions written in and removals deleted |
| GitletRepository.Repository.Remove | proj2/gitlet/Repository.java:168-199 | state and message are those of `rm` |
| GitletRepository.Repository.Log | proj2/gitlet/Repository.java:202-213 | the commits printed are the parent chain from the head commit to the origin commit |
| GitletRepository.Repository.Status | proj2/gitlet/Repository.java:247-318 | the branch section is sorted and lists every branch once; the report equals `status` as computed by the source's two passes |
| GitletRepository.Repository.CreateBranch | proj2/gitlet/Repository.java:321-335 | state and message are those of `branch` |
| GitletRepository.Repository.RemoveBranch | proj2/gitlet/Repository.java:338-354 | state and message are those of `rm-branch` |
| GitletRepository.Repository.CheckoutFile | proj2/gitlet/Repository.java:357-379 | state and message are those of `checkout [id] -- file` |
| GitletRepository.Repository.CheckoutBranch | proj2/gitlet/Repository.java:382-407 | state and message are those of `checkout branch`, HEAD switch included |
| GitletRepository.Repository.Reset | proj2/gitlet/Repository.java:410-428 | state and message are those of `reset` |
| GitletRepository.Repository.OverwriteCWD | proj2/gitlet/Repository.java:431-468 | refuses on an untracked file; otherwise the working directory and staging area are those of the overwrite, and branches are untouched |
| GitletRepository.PutAll | proj2/gitlet/Repository.java:141-143 | the result is the base map overridden by every update |
| GitletRepository.RemoveAll | proj2/gitlet/Repository.java:146-148 | the result is the base map without any of the keys |
| GitletRepository.DeleteDroppedFiles | proj2/gitlet/Repository.java:459-463 | exactly the files the previous commit tracks and the new commit does not are deleted |
| GitletRepository.ScanTracked | proj2/gitlet/Repository.java:274-287 | reports each tracked file that is modified and not staged, or missing and not staged for removal; what is left of the working directory is the untracked remainder |
| GitletRepository.ScanStaged | proj2/gitlet/Repository.java:292-303 | reports each staged file whose blob differs from, or is missing in, the leftover working files; removes the staged names |
| GitletSpec.InitIsValid | proj2/gitlet/Repository.java:42-69 | `init` gives a valid repository: only `master`, current, a log of just the origin commit, nothing staged |
| GitletSpec.AddMissingFile | proj2/gitlet/Repository.java:74-75 | `add` of a file not on disk fails and changes nothing |
| GitletSpec.AddStagesOrReverts | proj2/gitlet/Repository.java:85-107 | `add` cancels a pending removal; it unstages a file equal to its committed blob and stages any other blob; no other file and nothing else changes |
| GitletSpec.AddUnchangedFileIsNoOp | proj2/gitlet/Repository.java:93-97 | adding an unstaged file equal to its committed version changes nothing |
| GitletSpec.CommitRejects | proj2/gitlet/Repository.java:116-130 | an empty message or an empty staging area fails and changes nothing |
| GitletSpec.SnapshotFiles | proj2/gitlet/Repository.java:138-148 | a file is in the new commit iff it is not staged for removal and is added or inherited; added blobs win over inherited ones |
| GitletSpec.CommitAdvancesBranch | proj2/gitlet/Repository.java:133-165 | a successful commit moves only the current branch, to a new stored commit whose parent is the old head and whose files are the snapshot; staging becomes empty; the log gains exactly that commit |
| GitletSpec.RemoveWithoutReason | proj2/gitlet/Repository.java:183-184 | `rm` of a file neither staged nor tracked reports so and changes nothing |
| GitletSpec.RemoveNeedsFileOnDisk | proj2/gitlet/Repository.java:170-171 | `rm` of a file missing from disk fails even when it is tracked |
| GitletSpec.RemoveUnstagesOrStagesRemoval | proj2/gitlet/Repository.java:185-198 | `rm` unstages the file; if tracked it is also staged for removal with its blob and deleted from disk; nothing else changes |
| GitletSpec.CreateThenRemoveBranch | proj2/gitlet/Repository.java:321-354 | `branch` of a new name adds just that entry at the head commit, and `rm-branch` of it restores the repository |
| GitletSpec.BranchCommandsReject | proj2/gitlet/Repository.java:327-353 | an existing name for `branch`, and an unknown or current branch for `rm-branch`, fail without change; removing another branch deletes only it |
| GitletSpec.CheckoutFileWritesOneFile | proj2/gitlet/Repository.java:357-379 | an unknown commit or untracked file fails without change; otherwise exactly that one file is written, with the commit's blob |
| GitletSpec.OverwriteRefusesUntracked | proj2/gitlet/Repository.java:437-444 | any working file neither staged nor tracked aborts the overwrite, whatever the target commit |
| GitletSpec.OverwriteRestoresSnapshot | proj2/gitlet/Repository.java:447-468 | every target file is on disk with the target's blob; files only the previous commit tracked are gone; any other file left was on disk and staged; staging is empty |
| GitletSpec.CheckoutSwitchesBeforeUntrackedCheck | proj2/gitlet/Repository.java:397-406 | with an untracked file in the way, `checkout branch` fails yet HEAD has already moved to the branch |
| GitletSpec.CheckoutBranchSucceeds | proj2/gitlet/Repository.java:382-407 | a successful checkout makes the branch current, writes its commit's files, empties staging, and the log becomes that branch's history |
| GitletSpec.ResetMovesCurrentBranch | proj2/gitlet/Repository.java:410-428 | an unknown commit or an untracked file fails without change; otherwise the current branch points at the commit, its files are written, staging is empty, and the log is its history |
| GitletSpec.HistoryFollowsParents | proj2/gitlet/Repository.java:208-212 | the log starts at the head commit, each entry is followed by its parent, and it ends at a commit without a parent |
| GitletSpec.IntendedStatusMatchesDisk | proj2/gitlet/Repository.java:271-303 | the corrected report lists a file as deleted iff it is tracked and not staged for removal, or staged, and missing from disk; and as modified iff it is on disk with other contents than tracked-and-unstaged or staged |
| GitletSpec.StatusAgreesWithoutStagedTrackedFiles | proj2/gitlet/Repository.java:286-303 | when no staged file is tracked by the head commit, `status` as written gives the corrected report |
| GitletSpec.StatusReportsStagedEditAsDeleted | proj2/gitlet/Repository.java:286-300 | a committed file edited and staged again is reported deleted by `status`, though the corrected report lists it as neither deleted nor modified |
| GitletSpec.StatusCleanFor | proj2/gitlet/Repository.java:271-316 | a file committed as it is on disk, and not staged, appears in no section of `status` |
| GitletSpec.AddCommitStatusIsClean | proj2/gitlet/Repository.java:72-165 | after `add` and `commit` of a file it appears in no section of `status` |
| GitletSpec.FirstCommitScenario | proj2/gitlet/Repository.java:42-165 | `init`, `add a.txt`, `commit "first"` gives a two-entry log: the new commit holding `a.txt`, then the origin commit |
| DequeContract.FinalSnoc | proj1/deque/Deque.java:6-9 | one more operation does to the final items what it does to a deque holding them |
| DequeContract.ReplaySnoc | proj1/deque/Deque.java:6-9 | one more operation also appends what it returns to the returned items |
| DequeContract.FillBack | proj1/deque/Deque.java:7 | adding items at the back one by one appends them in order and returns nothing |
| DequeContract.DrainFront | proj1/deque/Deque.java:8 | removing from the front until empty returns the items in insertion order (FIFO) |
| DequeContract.DrainBack | proj1/deque/Deque.java:9 | removing from the back until empty returns the items reversed (LIFO) |
| LinkedListDeques.Node.constructor | proj1/deque/LinkedListDeque.java:14-16 | a node holding the given item, not yet linked to any other node |
| LinkedListDeques.LinkedListDeque.constructor | proj1/deque/LinkedListDeque.java:21-26 | a valid empty ring: the sentinel linked to itself |
| LinkedListDeques.LinkedListDeque.IsEmpty | proj1/deque/Deque.java:17-19 | true iff the deque holds no items |
| LinkedListDeques.LinkedListDeque.Size | proj1/deque/LinkedListDeque.java:54-56 | the number of items |
| LinkedListDeques.LinkedListDeque.AddFirst | proj1/deque/LinkedListDeque.java:30-38 | the ring stays valid and the item goes in front of the old items |
| LinkedListDeques.LinkedListDeque.AddLast | proj1/deque/LinkedListDeque.java:42-50 | the ring stays valid and the item goes behind the old items |
| LinkedListDeques.LinkedListDeque.RemoveFirst | proj1/deque/LinkedListDeque.java:75-86 | null on an empty deque; otherwise returns the front item and the rest keep their order |
| LinkedListDeques.LinkedListDeque.RemoveLast | proj1/deque/LinkedListDeque.java:91-102 | null on an empty deque; otherwise returns the back item and the rest keep their order |
| LinkedListDeques.LinkedListDeque.Get | proj1/deque/LinkedListDeque.java:107-120 | the item at the index, or null for any index out of range, negative included |
| LinkedListDeques.LinkedListDeque.Iterator | proj1/deque/LinkedListDeque.java:125-134 | a fresh iterator at position 0 of this deque |
| LinkedListDeques.LinkedListDequeIterator.Next | proj1/deque/LinkedListDeque.java:142-146 | returns the item at the position (null past the end) and advances by one |
| LinkedListDeques.LinkedListDequeIterator.HasNext | proj1/deque/LinkedListDeque.java:137-139 | true exactly when the position is before the end of the deque's items |
| LinkedListDeques.LinkedListDeque.Equals | proj1/deque/LinkedListDeque.java:154-177 | false for null or a non-deque; for a deque of either class, true iff both hold the same items in the same order |
| ArrayDeques.ArrayDeque.constructor | proj1/deque/ArrayDeque.java:14-19 | an empty deque over 8 slots, front free slot 7, back free slot 0 |
| ArrayDeques.ArrayDeque.IsEmpty | proj1/deque/Deque.java:17-19 | true iff the deque holds no items |
| ArrayDeques.ArrayDeque.Size | proj1/deque/ArrayDeque.java:49-51 | the number of items |
| ArrayDeques.ArrayDeque.AddFirst | proj1/deque/ArrayDeque.java:23-32 | the item goes in front; the array doubles exactly when it became full; the layout stays valid |
| ArrayDeques.ArrayDeque.AddLast | proj1/deque/ArrayDeque.java:36-45 | the item goes behind; the array doubles exactly when it became full; the layout stays valid |
| ArrayDeques.ArrayDeque.RemoveFirst | proj1/deque/ArrayDeque.java:66-77 | null when empty; without halving, returns the front item and keeps the rest; with halving, the back item is lost, a hole follows the items and `nextLast` no longer follows them |
| ArrayDeques.ArrayDeque.RemoveLast | proj1/deque/ArrayDeque.java:82-95 | null when empty; without halving, returns the back item and keeps the rest; with halving, it returns the item before the back one and leaves `nextLast` on it |
| ArrayDeques.ArrayDeque.RemoveFirstCorrected | proj1/deque/ArrayDeque.java:66-77 | null when empty; otherwise returns the front item and keeps the rest in order, halving or not; the layout stays valid |
| ArrayDeques.ArrayDeque.RemoveLastCorrected | proj1/deque/ArrayDeque.java:82-95 | null when empty; otherwise returns the back item and keeps the rest in order, halving or not; the layout stays valid |
| ArrayDeques.ArrayDeque.Get | proj1/deque/ArrayDeque.java:102-108 | the item at the index, or null at or past the size |
| ArrayDeques.ArrayDeque.Iterator | proj1/deque/ArrayDeque.java:113-122 | a fresh iterator at position 0 of this deque |
| ArrayDeques.ArrayDequeIterator.Next | proj1/deque/ArrayDeque.java:129-133 | returns the item at the position (null past the end) and advances by one |
| ArrayDeques.ArrayDequeIterator.HasNext | proj1/deque/ArrayDeque.java:124-126 | true exactly when the position is before the end of the deque's items |
| ArrayDeques.ArrayDeque.Equals | proj1/deque/ArrayDeque.java:141-165 | false for null or a non-deque; a cast exception for a deque of another class; for an array deque, true iff the items are equal in order |
| ArrayDeques.ArrayDeque.IncrementLastIndex | proj1/deque/ArrayDeque.java:168-174 | `nextLast` moves one slot on circularly; nothing else changes |
| ArrayDeques.ArrayDeque.DecrementLastIndex | proj1/deque/ArrayDeque.java:177-183 | `nextLast` moves one slot back circularly; nothing else changes |
| ArrayDeques.ArrayDeque.IncrementFirstIndex | proj1/deque/ArrayDeque.java:186-192 | `nextFirst` moves one slot on circularly; nothing else changes |
| ArrayDeques.ArrayDeque.DecrementFirstIndex | proj1/deque/ArrayDeque.java:195-201 | `nextFirst` moves one slot back circularly; nothing else changes |
| ArrayDeques.ArrayDeque.AdjustedIndex | proj1/deque/ArrayDeque.java:204-207 | the slot of the n-th item, counted circularly after `nextFirst` |
| ArrayDeques.ArrayDeque.Resize | proj1/deque/ArrayDeque.java:210-218 | a fresh array of the capacity holding the same items from slot 0, empty elsewhere, with the free slots at its end and right after the items |
| MaxArrayDeques.MaxArrayDeque.constructor | proj1/deque/MaxArrayDeque.java:9-11 | an empty deque with the given comparator |
| MaxArrayDeques.MaxArrayDeque.MaxBy | proj1/deque/MaxArrayDeque.java:22-33 | null iff empty; otherwise an item of the deque, and under a lawful comparator the first item no other item is above |
| MaxArrayDeques.MaxArrayDeque.Max | proj1/deque/MaxArrayDeque.java:16-18 | the same as `MaxBy` with the constructor's comparator |
| DequeScenarios.RandomizedComparison | proj1/deque/RandomizedTest.java:9-71 | with the array deque's corrected removals: for any operation sequence, the linked-list and array deques return the same items, namely those the deque contract predicts |
| DequeScenarios.Step | proj1/deque/RandomizedTest.java:14-48 | with the array deque's corrected removals: one operation keeps both deques equal, and both return what the contract predicts |
| DequeScenarios.StepAdd | proj1/deque/RandomizedTest.java:17-27 | an add keeps both deques equal to the contract's result |
| DequeScenarios.AddLastBoth | proj1/deque/RandomizedTest.java:18-21 | both deques hold their old items followed by the new one |
| DequeScenarios.AddFirstBoth | proj1/deque/RandomizedTest.java:24-27 | both deques hold the new item followed by their old items |
| DequeScenarios.StepRemove | proj1/deque/RandomizedTest.java:29-47 | with the array deque's corrected removals: a removal returns the same item from both deques, the one the contract predicts |
| DequeScenarios.RandomizedComparisonAsWritten | proj1/deque/RandomizedTest.java:9-71 | with the array deque's removals as written: both deques return the same items, those the contract predicts, up to the first removal that would halve the array, and such a removal needs at least 17 items |
| DequeScenarios.StepAsWritten | proj1/deque/RandomizedTest.java:14-48 | with the array deque's removals as written: an operation keeps both deques equal and both return what the contract predicts, except a removal that would halve the array, which is refused on at least 17 items and changes nothing |
| DequeScenarios.StepRemoveAsWritten | proj1/deque/RandomizedTest.java:29-47 | a removal that does not halve the array returns the same item from both deques, the one the contract predicts, and leaves the array deque valid in the same buffer |
| DequeScenarios.RemoveLastAsWritten | proj1/deque/RandomizedTest.java:34-36 | without halving, the as-written `removeLast` returns the same back item as the linked list and both keep the rest |
| DequeScenarios.RemoveFirstAsWritten | proj1/deque/RandomizedTest.java:44-46 | without halving, the as-written `removeFirst` returns the same front item as the linked list and both keep the rest |
| DequeScenarios.EmptyRemovals | proj1/deque/LinkedListDequeTest.java:98-108 | removals from empty deques of both classes return null at both ends |
| DequeScenarios.BigLinkedList | proj1/deque/LinkedListDequeTest.java:112-126 | after adding `0 .. n-1`, front removals return `0, 1, ...` and back removals return `n-1, n-2, ...` |
| DequeScenarios.CountingList | proj1/deque/LinkedListDequeTest.java:199-202 | a linked-list deque holding `0 .. n-1` in order |
| DequeScenarios.CountingArray | proj1/deque/LinkedListDequeTest.java:205-208 | an array deque holding `0 .. n-1` in order |
| DequeScenarios.CountingArrayAtFront | proj1/deque/LinkedListDequeTest.java:220-223 | an array deque holding `n-1 .. 0` |
| DequeScenarios.EqualsSameArray | proj1/deque/LinkedListDequeTest.java:198-211 | a linked-list and an array deque with the same items compare equal |
| DequeScenarios.EqualsDifferentArray | proj1/deque/LinkedListDequeTest.java:214-226 | items in reverse order compare unequal |
| DequeScenarios.Students | proj1/deque/LinkedListDequeTest.java:229-272 | `get(2)` is student 2, Nora, and `removeFirst` is student 0, Adrian |
| DequeScenarios.MaxDequeOf | proj1/deque/MaxArrayDequeTest.java:13-35 | a max-deque with the comparator and exactly the items, in order |
| DequeScenarios.CountingLargest | proj1/deque/MaxArrayDequeTest.java:13-35 | on `0 .. 999` the `max` promise under `a - b` forces 999 |
| DequeScenarios.CountingSmallest | proj1/deque/MaxArrayDequeTest.java:13-35 | on `0 .. 999` the `max` promise under `b - a` forces 0 |
| DequeScenarios.IntegerMaxima | proj1/deque/MaxArrayDequeTest.java:13-35 | `max` under the two integer comparators gives 999 and 0 |
| DequeScenarios.StringsLongest | proj1/deque/MaxArrayDequeTest.java:38-63 | the `max` promise under the length comparator forces the longest string |
| DequeScenarios.StringsShortest | proj1/deque/MaxArrayDequeTest.java:38-63 | the `max` promise under the reversed length comparator forces the first shortest string, `"1"` |
| DequeScenarios.StringMaxima | proj1/deque/MaxArrayDequeTest.java:38-63 | `max` under the two string comparators gives the longest and the shortest string |
| DequeScenarios.FillAndHalve | proj1/deque/ArrayDeque.java:36-45 | after adding 64 items and removing 32 from the back, 32 items `0 .. 31` sit in 128 slots |
| DequeScenarios.ShrinkingRemoveLast | proj1/deque/ArrayDeque.java:82-95 | the next `removeLast` as written returns 30 although 31 is the back item |
| DequeScenarios.ShrinkingRemoveLastCorrected | proj1/deque/ArrayDeque.java:82-95 | the corrected `removeLast` returns 31 |
| HashMaps.Find | lab8/hashmap/MyHashMap.java:169-174 | no result iff no node of the bucket has the key; a result is the value of a node with that key |
| HashMaps.FindAppend | lab8/hashmap/MyHashMap.java:199 | a node appended to a bucket is found only for its key, and only when no earlier node has it |
| HashMaps.FindReplace | lab8/hashmap/MyHashMap.java:192-196 | overwriting the first node for a key changes only what the scan for that key finds |
| HashMaps.FindDelete | lab8/hashmap/MyHashMap.java:238-239 | deleting a node from a bucket without repeated keys loses only that key |
| HashMaps.ExceedsIsRatio | lab8/hashmap/MyHashMap.java:72-74 | the integer test is exactly size / buckets > maximum load factor, over the rationals |
| HashMaps.MyHashMap.HashIndex | lab8/hashmap/MyHashMap.java:77-79 | the index is a valid bucket of the table |
| HashMaps.MyHashMap.HashIndexIsFloorMod | lab8/hashmap/MyHashMap.java:77-79 | the index is the hash code's non-negative remainder modulo the length, as `Math.floorMod` computes it |
| HashMaps.MyHashMap.EmptyOrganized | lab8/hashmap/MyHashMap.java:64-69 | a table of empty buckets holds no mappings |
| HashMaps.MyHashMap.ReplaceBucket | lab8/hashmap/MyHashMap.java:189-205 | exchanging one bucket for one organised for its index keeps the table organised for the new mappings |
| HashMaps.MyHashMap.AppendToBucket | lab8/hashmap/MyHashMap.java:199-200 | appending a node for a new key to its bucket adds exactly that mapping |
| HashMaps.MyHashMap.ReplaceInBucket | lab8/hashmap/MyHashMap.java:192-196 | overwriting a node's value changes only that key's mapping |
| HashMaps.MyHashMap.DeleteFromBucket | lab8/hashmap/MyHashMap.java:238-239 | unlinking a node removes exactly that key's mapping |
| HashMaps.MyHashMap.constructor | lab8/hashmap/MyHashMap.java:35-39 | an empty map over 16 buckets with a maximum load factor of 3/4 |
| HashMaps.MyHashMap.WithSize | lab8/hashmap/MyHashMap.java:41-45 | an empty map over the given number of buckets, load factor 3/4 |
| HashMaps.MyHashMap.WithLoad | lab8/hashmap/MyHashMap.java:54-58 | an empty map over the given number of buckets with the given load factor |
| HashMaps.MyHashMap.SetUp | lab8/hashmap/MyHashMap.java:64-69 | a fresh table of empty buckets of the given length |
| HashMaps.MyHashMap.CreateTable | lab8/hashmap/MyHashMap.java:123-138 | a fresh table of exactly the requested length, every bucket an empty collection |
| HashMaps.MyHashMap.ExceedsMaxLoadFactor | lab8/hashmap/MyHashMap.java:72-74 | true iff size / bucket count exceeds the maximum load factor |
| HashMaps.MyHashMap.ResizedTable | lab8/hashmap/MyHashMap.java:83-96 | a fresh table of the new length holding the same mappings, each node in its bucket for the new length |
| HashMaps.MyHashMap.Rehash | lab8/hashmap/MyHashMap.java:89-94 | after moving bucket b, the new table holds exactly the mappings of buckets 0 .. b |
| HashMaps.MyHashMap.Clear | lab8/hashmap/MyHashMap.java:143-146 | no mappings and size 0, over as many fresh buckets as before |
| HashMaps.MyHashMap.ContainsKey | lab8/hashmap/MyHashMap.java:150-159 | true iff the key has a mapping |
| HashMaps.MyHashMap.Get | lab8/hashmap/MyHashMap.java:166-175 | the key's value, or null when it has none |
| HashMaps.MyHashMap.Size | lab8/hashmap/MyHashMap.java:179-181 | the mappings plus the removals since set-up (see Findings) |
| HashMaps.MyHashMap.Put | lab8/hashmap/MyHashMap.java:189-205 | the key maps to the value; size grows only for a new key; the table doubles exactly when the new size exceeds the load factor |
| HashMaps.MyHashMap.KeySet | lab8/hashmap/MyHashMap.java:209-218 | exactly the keys with mappings |
| HashMaps.MyHashMap.Unlink | lab8/hashmap/MyHashMap.java:239 | the map loses that node's key; size unchanged |
| HashMaps.MyHashMap.Remove | lab8/hashmap/MyHashMap.java:227-244 | returns the key's value (null if none) and removes the mapping, leaving size unchanged |
| HashMaps.MyHashMap.RemoveEntry | lab8/hashmap/MyHashMap.java:252-269 | removes and returns the value only when the key maps to exactly that value; size unchanged |
| HashMaps.MyHashMap.RemoveCorrected | lab8/hashmap/MyHashMap.java:227-244 | as `Remove`, with size still counting the mappings |
| HashMaps.MyHashMap.RemoveEntryCorrected | lab8/hashmap/MyHashMap.java:252-269 | as `RemoveEntry`, with size still counting the mappings |
| HashMaps.MyHashMap.Iterator | lab8/hashmap/MyHashMap.java:272-274 | a fresh stub iterator |
| HashMaps.HashMapIterator.HasNext | lab8/hashmap/MyHashMap.java:279-281 | never a next key |
| HashMaps.HashMapIterator.Next | lab8/hashmap/MyHashMap.java:284-286 | always null |
| HashMaps.RemoveKeepsSize | lab8/hashmap/MyHashMap.java:227-244 | after one put and its remove, the key is gone but size still reports 1 |
| HashMaps.RemoveCorrectedShrinksSize | lab8/hashmap/MyHashMap.java:227-244 | with the corrected remove, size drops back to 0 |
| HashMaps.PutReplaces | lab8/hashmap/MyHashMap.java:192-196 | putting an existing key again replaces its value and keeps size 1 |
| Wrappers.Lookup | lab8/hashmap/MyHashMap.java:166-175 | a value iff the key is mapped, and it is the mapped value |
| BSTMaps.CountIsSize | lab7/bstmap/BSTMap.java:116-118 | in a search tree the node count equals the number of mappings |
| BSTMaps.InsertKeepsSearchTree | lab7/bstmap/BSTMap.java:132-145 | insertion keeps the search-tree order and adds exactly the inserted key |
| BSTMaps.InsertMapping | lab7/bstmap/BSTMap.java:132-145 | a new key gains its mapping; an existing key keeps its old value |
| BSTMaps.InsertCount | lab7/bstmap/BSTMap.java:122-130 | the node count grows by one exactly for a new key |
| BSTMaps.InOrderSorted | lab7/bstmap/BSTMap.java:54-62 | the in-order keys strictly increase and are exactly the mapped keys |
| BSTMaps.BSTNode.constructor | lab7/bstmap/BSTMap.java:17-22 | a valid leaf holding the one mapping |
| BSTMaps.ContainsHelper | lab7/bstmap/BSTMap.java:77-89 | following the search path finds the key iff the subtree maps it |
| BSTMaps.GetHelper | lab7/bstmap/BSTMap.java:99-111 | following the search path gives the subtree's value for the key, or null |
| BSTMaps.PrintHelper | lab7/bstmap/BSTMap.java:54-62 | the subtree's keys left to right: increasing, each mapped key once |
| BSTMaps.Insert | lab7/bstmap/BSTMap.java:132-145 | the returned root's tree is the tree with the leaf inserted; an existing key leaves it unchanged |
| BSTMaps.InsertLeft | lab7/bstmap/BSTMap.java:135-137 | insertion into the left subtree, relinked, inserts into the node's tree |
| BSTMaps.InsertRight | lab7/bstmap/BSTMap.java:138-140 | insertion into the right subtree, relinked, inserts into the node's tree |
| BSTMaps.BSTMap.constructor | lab7/bstmap/BSTMap.java:44-47 | an empty valid map of size 0 |
| BSTMaps.BSTMap.Clear | lab7/bstmap/BSTMap.java:66-69 | no mappings, no root, size 0 |
| BSTMaps.BSTMap.ContainsKey | lab7/bstmap/BSTMap.java:73-75 | true iff the key is mapped |
| BSTMaps.BSTMap.Get | lab7/bstmap/BSTMap.java:95-97 | the key's value, or null |
| BSTMaps.BSTMap.Size | lab7/bstmap/BSTMap.java:116-118 | the number of mappings |
| BSTMaps.BSTMap.PrintInOrder | lab7/bstmap/BSTMap.java:50-52 | the keys in strictly increasing order, each mapped key exactly once |
| BSTMaps.BSTMap.Put | lab7/bstmap/BSTMap.java:122-130 | a new key gains its mapping and size grows by one; an existing key keeps its first value and size |
| BSTMaps.BSTMap.KeySet | lab7/bstmap/BSTMap.java:150-152 | throws `UnsupportedOperationException` |
| BSTMaps.BSTMap.Remove | lab7/bstmap/BSTMap.java:158-160 | throws `UnsupportedOperationException` |
| BSTMaps.BSTMap.RemoveMapping | lab7/bstmap/BSTMap.java:166-168 | throws `UnsupportedOperationException` |
| BSTMaps.BSTMap.Iterator | lab7/bstmap/BSTMap.java:171-173 | throws `UnsupportedOperationException` |
| BSTMaps.PutKeepsFirstValue | lab7/bstmap/BSTMap.java:122-145 | two puts of one key keep the first value and a size of 1 |
| HexWorld.RandomTile | proj3/byow/lab12/HexWorld.java:95-105 | one of the five landscape tiles for 0 .. 4; nothing only outside that range |
| HexWorld.HexagonByRows | proj3/byow/lab12/HexWorld.java:26-42 | the hexagon is exactly the union of its 2s rows |
| HexWorld.WidestRowsInMiddle | proj3/byow/lab12/HexWorld.java:33-35 | no row is wider than the two middle rows of 3s - 2 cells, and those rows are covered |
| HexWorld.HexagonSymmetric | proj3/byow/lab12/HexWorld.java:26-42 | the hexagon is mirror-symmetric left to right and top to bottom |
| HexWorld.FillRow | proj3/byow/lab12/HexWorld.java:47-51 | writes the tile into the row's cells and into no other cell |
| HexWorld.AddHexagon | proj3/byow/lab12/HexWorld.java:26-42 | writes the tile into the hexagon's cells and into no other cell |
| HexWorld.FillEmptyTiles | proj3/byow/lab12/HexWorld.java:57-65 | every cell becomes empty space |
| HexWorld.PaintedAppend | proj3/byow/lab12/HexWorld.java:85-89 | drawing two lists of hexagons paints the second over the first, with the following random numbers |
| HexWorld.PaintedSnoc | proj3/byow/lab12/HexWorld.java:85-89 | one more hexagon decides exactly the cells it covers |
| HexWorld.ColumnPlaces | proj3/byow/lab12/HexWorld.java:85-89 | a column has `length` hexagons, none for a negative length |
| HexWorld.ColumnPlaceAt | proj3/byow/lab12/HexWorld.java:87 | the k-th hexagon of a column starts 2sk lines below the first |
| HexWorld.FillTerrainColumn | proj3/byow/lab12/HexWorld.java:85-89 | each cell ends with the tile of the last column hexagon covering it, or keeps its old tile |
| HexWorld.OuterPlacesCount | proj3/byow/lab12/HexWorld.java:78-81 | the outer columns of steps 1 .. n-1 hold (n - 1)(4t - 2 - n) hexagons |
| HexWorld.TerrainCount | proj3/byow/lab12/HexWorld.java:70-83 | a tessellation of size t draws 3t² - 3t + 1 hexagons |
| HexWorld.OuterColumnsFit | proj3/byow/lab12/HexWorld.java:78-81 | each step's columns lie in the grid when the whole tessellation does |
| HexWorld.OuterPlacesStep | proj3/byow/lab12/HexWorld.java:78-81 | each loop step appends its left and right column, each of 2t - 1 - i hexagons |
| HexWorld.FillOuterColumns | proj3/byow/lab12/HexWorld.java:79-80 | each cell ends with the tile of the last hexagon of the two columns covering it |
| HexWorld.TerrainGenerator | proj3/byow/lab12/HexWorld.java:70-83 | each cell ends with the tile of the last tessellation hexagon covering it, in drawing order, or keeps its old tile |

## Left out

- File I/O and persistence are not modelled: the `.gitlet` directories, serialisation, `saveToFile` and `fromFile`. The working directory is a map from file name to blob id, the commit store is a set of ids, and blob contents are not stored.
- Printing and `System.exit(0)` become values. A failing command returns its error; `Message` gives the printed line. `log` returns the commits it prints, `status` returns the sections it prints, and `printBranches` returns its lines.
- SHA-1 is taken to be collision-free: a commit id is its commit's fields. Blob ids are compared as strings, as `sameBlobID` does.
- The clock is a `now` parameter of `commit`. The origin commit has timestamp 0.
- `globalLog` and `find` (`proj2/gitlet/Repository.java:216-244`) are not modelled. They list the commit directory, and the model has no directory listing order. `Main.java` argument parsing is not part of this model.
- `proj2/gitlet/Repository.java` calls methods that `Staging.java`, `Branch.java` and `Commit.java` do not define. They are modelled by what their names and uses evidently mean:
  - `addFile` and `removeFile` become `StageAdd` and `StageRemove`;
  - `hasAdded` and `hasRemoved` become `HasAdded` and `HasRemoved`;
  - `getAddedFiles` and `getRemove` become reads of the staging maps `add` and `remove`;
  - `clear` becomes `Clear`;
  - `isTracking` becomes `ContainsFile`;
  - `getCommitFiles` becomes the commit's `files` map, and `getFileBlobID` becomes `GetBlobID`;
  - `getParentID` and `getMessage` become the commit's `parent` and `message` fields;
  - `getHEAD` becomes `GetHEAD`;
  - `Branch.remove` becomes `RemoveBranch`;
  - `printFiles` becomes the `staged` and `removed` sections of the status report: the names of the two staging maps.
- GitletCommit.Commit: `Repository.java` (lines 52-53 and 151-152) passes the formatted date `String` where the `Commit` constructor (`proj2/gitlet/Commit.java:38`) takes a `Date`, so the source as written does not compile there. The model stores a timestamp, a natural number of the caller's clock; the origin commit has 0, and `commit` takes the time as its `now` parameter.
- GitletStaging.Staging: the source's staging maps are `static` fields, so Java serialisation would not save them. The model treats them as instance state, because persistence is left out.
- GitletBranch.Branch.ContainsBranch, GetHEAD and GetHEADCommitID, and GitletStaging.Staging.HasAdded and HasRemoved, are plain reads without contracts. What they return is pinned down through the `GitletRepository` commands that use them.
- `getBranchCommitID` (`proj2/gitlet/Branch.java:62-68`) and `dump` are not called by the modelled commands and are not modelled.
- `printDeque` of both deques is not modelled. It only prints the items that `Get` returns.
- HexWorld: `randomTile`'s `java.util.Random` becomes a `draws` sequence of the numbers `nextInt(5)` returned, one per hexagon in drawing order. `main`, the `TERenderer` and the `Tileset` graphics are left out, and the tiles are an enumeration. The comment above `randomTile` speaks of three equally likely tiles, while the code chooses among five; the model follows the code.
- HexWorld.AddHexagon, FillRow, FillTerrainColumn, TerrainGenerator: the source checks no bounds. These members require their cells to lie inside the grid, where Java would throw `ArrayIndexOutOfBoundsException`.
- BSTMap keys are `int`: `Comparable.compareTo` is taken to be a total order, which integers are. Values are generic.
- MyHashMap: `hashCode` is a function fixed at construction. The `double` maximum load factor is the exact fraction `num/den`, and `1.0 * size / length > maxLF` is compared exactly, not in floating point. Node objects become values in a bucket sequence, and the bucket `Collection` is a sequence.
- The `Iterator` objects of both deques keep a position and read through `get`, as the source's do. Java's `for-each` over them becomes index loops.
- ArrayDeques.ArrayDeque.RemoveFirst, RemoveLast: when the array halves, these as-written members promise no valid layout afterwards, because the source leaves none (see Findings). They state the broken layout field by field instead.
- MaxArrayDeques.MaxArrayDeque.MaxBy, Max: the first-maximum promise is stated only for a comparator that keeps the `Comparator` contract on the items. Java's `Comparator` is a pure function here.
- LinkedListDeques.LinkedListDeque.Equals, ArrayDeques.ArrayDeque.Equals: item equality is Dafny's `==` in place of `T.equals`. Null items cannot occur, because the source assumes items are never null.
- DequeScenarios.RandomizedComparison, Step, StepRemove: these are proved with the array deque's corrected removals. The source's test, which uses the removals as written, fails once a removal halves the array: an array of 128 or more slots that falls below a quarter full while still holding at least 16 items (see Findings). A back removal that halves the array returns the wrong item at once. A front removal that halves it returns the right item but loses the back item, so the test fails at a later call. `RandomizedComparisonAsWritten` states how far the as-written test agrees.
- HashMaps.MyHashMap.WithSize, WithLoad: these require a positive number of buckets and a non-negative load factor. In Java, `MyHashMap(0)` constructs a table with no buckets, after which every `containsKey`, `get`, `put` and `remove` throws `ArithmeticException` from `Math.floorMod(_, 0)`. A negative size throws `NegativeArraySizeException`. A negative maximum load factor makes every new key double the table. The model covers none of these three cases.
- ArrayDeques.ArrayDeque.Get: requires a non-negative index. In Java, a negative index reads slot `(nextFirst + 1 + index) % length`: `get(-1)` reads the free front slot `array[nextFirst]`, and a smaller index reads an earlier slot, which may hold an item when the items wrap around. Java throws `ArrayIndexOutOfBoundsException` only when `nextFirst + 1 + index < 0`. No caller in the source passes a negative index.
- HexWorld.FillEmptyTiles: requires a grid with at least one column. Java reads `tiles[0].length` and throws `ArrayIndexOutOfBoundsException` on an empty grid.
- GitletSpec.Status: the staged, removed, modified and untracked sections are sets. The order in which the source prints them is not modelled: `TreeSet` order for the modified and untracked files, and the order of the undefined `printFiles` for the staging sections. `PrintBranches` keeps its order.
- MaxArrayDeques.MaxArrayDeque: Java's `MaxArrayDeque` extends `ArrayDeque`, while the model holds an `ArrayDeque` in a field. So the `equals` argument types of both deques have no max-deque case; a max-deque passed to `equals` is modelled as its inner array deque.
- StringOrder.Below: compares strings character by character as Unicode scalar values, while Java's `String.compareTo` compares UTF-16 code units. The two orders agree on names in the Basic Multilingual Plane. They can differ for branch names that mix characters above U+FFFF with characters from U+E000 to U+FFFF.
- Java's 32-bit `int` overflow is not modelled. Sizes, indices and capacities are unbounded integers, and the source never approaches the limit.

## Findings

| source | as written | input that shows it | evidently intended | confidence | as-written member | corrected member |
|---|---|---|---|---|---|---|
| proj1/deque/ArrayDeque.java:82-95 | `removeLast` decrements `size` and may halve the array before moving `nextLast`, so the copy leaves out the back item and the item before it is returned | `0 .. 63` added at the back, 32 removed from the back, then `removeLast` returns 30 while 31 is the back item | move the index and take the item, then shrink | not executed | DequeScenarios.ShrinkingRemoveLast | DequeScenarios.ShrinkingRemoveLastCorrected |
| proj1/deque/ArrayDeque.java:66-77 | `removeFirst` halves before moving `nextFirst`; the copy drops the back item and leaves an empty slot among the items | a deque whose size after the decrement is at least 16 and below a quarter of the array | move the index and take the item, then shrink | not executed | ArrayDeques.ArrayDeque.RemoveFirst | ArrayDeques.ArrayDeque.RemoveFirstCorrected |
| proj2/gitlet/Repository.java:286-300 | the second `status` pass compares staged files with the working files left after tracked names were removed, so a staged edit of a tracked file is reported as `(deleted)` | commit `a.txt`, edit it, `add a.txt`, `status` | compare staged files with the whole working directory | not executed | GitletSpec.StatusReportsStagedEditAsDeleted | GitletSpec.IntendedStatusMatchesDisk |
| lab8/hashmap/MyHashMap.java:227-269 | both `remove`s unlink the node but never decrement `size` | `put(1, "one")`, `remove(1)`, then `size()` returns 1 | `size -= 1` when a node is removed | not executed | HashMaps.RemoveKeepsSize | HashMaps.RemoveCorrectedShrinksSize |
