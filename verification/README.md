# wjfs, modelled and proved in Dafny

wjfs is a Linux 2.6.32 kernel module: an in-memory file system that mirrors its name space onto a
peer machine over a text protocol. This project models its core and proves what the core is for.
`dafny verify dfyconfig.toml` checks all of it.

**Unmounting.** The dentry cache is a tree with a reference count per entry. `wjfs_d_genocide` walks
it with gotos and no stack, and the umount shrinker then frees it leaf first and stops the kernel if a
count is not zero. `Trees`, `GenocideWalk` and `UmountTeardown` prove the walk equal to the recursive
tree map and the teardown equal to the leaf-first order; `Dcaches` proves when the two together stop
the kernel, as an if-and-only-if over every tree.

**Reference counts.** `RefCounts`, `Stores` and `Dcaches` carry one invariant through lookup, create,
link, unlink, rmdir, their variants on behalf of the peer, open and close: a count is the number of
children, plus the pin that creation takes, plus the references callers hold. `CacheRuns` says what each
operation does to the name space and that afterwards exactly the entries nobody holds are freed,
`CacheEffects` which requests get through and what each changes, over every sound state;
`Dcaches.Session` is mount, any run, unmount. The code does not always come back from a run. Creating on
behalf of the peer follows the result of a lookup without looking at it, and the server's search also
finds directories that a local rmdir has left dead and unhashed; `RemoteCreate` says exactly when that
stops the kernel. Removing a mirror on behalf of the peer is a single `dput`, so a mirror in use stays
live without its pin, and removing a mirror locally takes it out of the name space with its pin.
`StuckIff` says for every state when this makes the unmount stop with BUG, `CleanStep` which operations
can lead there, and `StuckRuns` has two runs that do, one that comes close, and one that does not get as
far as the unmount, beside one of a process that removes what it made.

**Mirroring.** `Decimal` and `Wire` are the messages and the tokenizers, `MappTables` the inode mapping
table, `Searches` the two recursive searches, `Mirroring` one message on the peer, `MirrorRuns` every
run of an owner and a peer with a queue between them, and `Servers` the imperative server that refines
it. Beside mirrors the peer has strays: entries of its own, and mirrors that outlived the owner's removal
because a process held them. `Cuts` and `Covering` are about the peer without its strays: in every state
of every run it mirrors the owner as it was before the messages in flight. The parent is looked up by name
only; `CreateMirroredIffLegal` and, beside strays, `CoverMadeIff` are the exact conditions under which a
creation is mirrored, and `SameNameMisleads` is a tree where it is not. A removal is always carried out
beside the strays, and leaves one more of them exactly when the mirror is held or not empty
(`CoverRemoves`); a stray of that name then stops the kernel at the next creation (`RecreatedWhileHeld`),
until the last close frees it (`CloseRestores`). `WriteThrough` proves that a write to a mirror reaches the
file it mirrors and no other.

**Reading and writing.** `Pages` is a file as the page cache holds it, `IovIters` the cursor over the
caller's segments, `FileIo` the paged loops with their short copies, faults and retries. Reads refine a
slice and complete writes refine a splice; what an interrupted write reports is the sum of what its passes
copied, each fixed by its attempt, the page and the segments. Two promises fail for writes that stop early:
`simple_write_end` zeroes what a short copy did not copy, so bytes of the page it stopped on can be lost
(`ShortCopyLosesBytes`), and it sets the size even when nothing was copied, so a failed write past the
end can grow the file (`FailedWriteGrows`). `PerformWrite` and `AioWrite` say exactly when neither
happens. `PageBalance` follows every path
through the labels of the read loop and proves that page references and locks are balanced.

**File size.** `Seqcount` is the lock-free reader of the two-word size against serialized writers. An
accepted size is the current one unless the 32-bit counter goes round completely during the read;
`TornAfterWrap` shows that this bound is tight.

**Link counts.** `LinkCounts` is the name space with the link arithmetic of the 3.9 source and the checks
of the kernel around it; link counts stay exact and the directories a tree. The 3.29 source lost one
`drop_nlink` in rename; `RenamedExact` says exactly when that matters, and `OneLinkStays` shows it.

Kernel helpers follow the Linux 2.6.32.21 source in the same repository. What the environment decides
(which pages are cached, where a copy faults, which inode number or address comes next, whether memory
is left) is a parameter, so each statement holds for all of it. Sockets are a queue of strings.

## Model

| member | source | states |
|---|---|---|
| Trees.HitsFromRoot | fs3.29实现远程创建删除读写版/wjfs.c:475-513 | A depth-first walk from the root through live entries touches each entry at most once, and touches exactly those whose ancestors are all live. |
| Trees.TeardownComplete | fs3.29实现远程创建删除读写版/save.c:542-636 | The leaf-first order lists every entry of the tree exactly once, each after all its children, so its length is the number of entries. |
| Trees.TeardownTakesFirstLeaf | fs3.29实现远程创建删除读写版/save.c:555-629 | The leaf reached by going to the first child repeatedly is the first entry of that order, and freeing it leaves the rest of the order for the rest of the tree. |
| Trees.PruneValid | linux-2.6.32.21/fs/dcache.c:168-184 | Taking a childless entry out of its parent's list leaves a well-formed tree: unique parents, no entry listed twice, no dangling link. |
| Trees.GrowValid | linux-2.6.32.21/fs/dcache.c:917-971 | Putting a new entry at the head of a list leaves a well-formed tree. |
| GenocideWalk.Skip | fs3.29实现远程创建删除读写版/wjfs.c:491-492 | Passing an unhashed or negative entry leaves the decrements still owed to every other entry unchanged and brings the walk closer to its end. |
| GenocideWalk.Enter | fs3.29实现远程创建删除读写版/wjfs.c:493-496 | Going down into a live entry with children leaves what is owed to every entry unchanged and brings the walk closer to its end. |
| GenocideWalk.DropLeaf | fs3.29实现远程创建删除读写版/wjfs.c:497-500 | Decrementing a live entry without children pays exactly what the walk owed it. |
| GenocideWalk.Leave | fs3.29实现远程创建删除读写版/wjfs.c:502-511 | Climbing from a finished entry to its parent's next child pays exactly the one decrement the walk owed the entry. |
| GenocideWalk.Landed | fs3.29实现远程创建删除读写版/wjfs.c:475-513 | When the walk ends at the root every count has dropped by one if the entry was reachable through live entries, and by nothing otherwise. |
| Dcaches.Dcache.Genocide | fs3.29实现远程创建删除读写版/wjfs.c:475-513 | The goto walk terminates and equals the recursive tree map: exactly the non-root live entries reachable through live ancestors lose exactly one reference; tree, inodes, hashing and names are untouched. |
| UmountTeardown.ShrinkDown | fs3.29实现远程创建删除读写版/save.c:555-573 | Descending to the first child after unhashing the children keeps the teardown invariant, one level deeper. |
| UmountTeardown.ShrinkFree | fs3.29实现远程创建删除读写版/save.c:596-629 | Freeing the leftmost leaf with the decrement of its parent keeps the invariant that every remaining entry has lost one reference per freed child; the parent's remaining children are still unhashed. |
| UmountTeardown.ShrinkDue | fs3.29实现远程创建删除读写版/save.c:578-594 | The count tested at a childless entry is its original count less its original number of children. |
| UmountTeardown.Verdict | fs3.29实现远程创建删除读写版/save.c:542-636 | The teardown stops with BUG if and only if some entry's count differs from its number of children. |
| Dcaches.Dcache.StepDown | fs3.29实现远程创建删除读写版/save.c:556-573 | One descent step keeps the invariant, changes only hashing, and strictly increases the depth. |
| Dcaches.Dcache.DescendToLeaf | fs3.29实现远程创建删除读写版/save.c:555-574 | The inner loop ends at a childless entry and changes only hashing. |
| Dcaches.Dcache.FreeLeaf | fs3.29实现远程创建删除读写版/save.c:596-616 | Exactly one entry leaves the cache, it is the next one of the leaf-first order, and the parent's count drops by one. |
| Dcaches.Dcache.ConsumeUpwards | fs3.29实现远程创建删除读写版/save.c:576-627 | The inner do-while frees a strictly positive number of entries in order, or stops with BUG at the next one due, or empties the tree; `detached` counts the freed entries. |
| Dcaches.Dcache.ShrinkSubtree | fs3.29实现远程创建删除读写版/save.c:542-636 | Frees every entry exactly once in leaf-first order and leaves nothing, with `detached` the number freed; or stops at the first entry of that order whose count is not its number of children. |
| Dcaches.Dcache.Unmount | fs3.29实现远程创建删除读写版/wjfs.c:515-521 | Walk, root decrement and teardown together stop with the still-in-use BUG if and only if some count differs from children plus one for a reachable live entry or the root; otherwise every dentry is freed and `detached` is the size of the tree. |
| Dcaches.Dcache.UnmountQuiet | fs3.29实现远程创建删除读写版/save.c:638-655 | With no references held by callers, unmounting stops with BUG if and only if a pinned entry is out of the name space or a live entry hangs below an entry that lost its pin. |
| RefCounts.PutEarlier | linux-2.6.32.21/fs/dcache.c:215-231 | A decrement that is not the last pays the owed reference and keeps every other count equal to children, pin and callers. |
| RefCounts.PutLast | linux-2.6.32.21/fs/dcache.c:251-258 | An entry at its last reference has no child, no pin and no caller, and freeing it leaves its parent owed exactly one reference. |
| Stores.SaneKept | linux-2.6.32.21/fs/dcache.c:215-259 | Freeing entries nobody holds keeps names unambiguous, pins on positive entries, mirrors pinned, and children below directories only. |
| Stores.FoundOnce | linux-2.6.32.21/fs/dcache.c:1360-1419 | Two hashed children of one directory that a lookup of a name finds are the same entry. |
| CacheRuns.SettledOnce | linux-2.6.32.21/fs/dcache.c:215-259 | The effect of an operation and the rule that only entries nobody holds are freed determine entries, parents, counts, inodes and their kinds, hashing, names, pins and references of the new state. |
| CacheRuns.StuckIff | fs3.29实现远程创建删除读写版/save.c:542-636 | Over every sound state without callers: some count differs from what the unmount takes if and only if a pinned entry is out of the name space or a live one hangs below an unpinned one. |
| CacheRuns.AllReached | fs3.29实现远程创建删除读写版/wjfs.c:475-513 | In such a state that is not stuck the unmount walk reaches every entry. |
| CacheRuns.CleanStep | fs3.29实现远程创建删除读写版/wjfs.c:77-321 | From a state where exactly the live entries are pinned, an operation that does not break the cache leads to such a state if and only if it is none of: creating for the peer over a negative entry of a removed directory, removing for the peer a mirror in use, removing a mirror locally. |
| CacheRuns.CleanNotStuck | fs3.29实现远程创建删除读写版/save.c:542-636 | Such a state never makes an unmount stop. |
| CacheRuns.TakenIff | fs3.29实现远程创建删除读写版/wjfs.c:2229-2239 | A name is taken if and only if the one hashed child of that name is live. |
| CacheEffects.CreateDoes | fs3.29实现远程创建删除读写版/wjfs.c:77-153 | Over every sound state: create and mkdir get through if and only if the directory is in the name space and no live entry has the name; then there is one new live, pinned child of that name, inode and kind, and every other entry keeps its pin, inode, name, place and users or, if nobody held it, is gone. |
| CacheEffects.LinkDoes | fs3.29实现远程创建删除读写版/wjfs.c:275-286 | The same for link, which gets through if and only if also the target is a file of the name space, and with the target's inode. |
| CacheEffects.UnlinkDoes | fs3.29实现远程创建删除读写版/wjfs.c:289-310 | unlink gets through if and only if the entry is a file of the name space below a directory of the name space; then it is out of the name space, an own one without its pin and gone if nobody holds it, a mirror with its pin; every other entry stays as it was. |
| CacheEffects.RmdirDoes | fs3.29实现远程创建删除读写版/wjfs.c:207-230 | The same for rmdir of a directory that is a mirror or has no live child. |
| CacheEffects.RemoteCreateDoes | fs3.29实现远程创建删除读写版/wjfs.c:2220-2248 | The peer's creation stops the kernel if and only if the name is empty or has a slash, the parent is no directory, a live child has the name, or the parent is out of the name space and no hashed child has the name; otherwise there is one new mirror of that name, inode and kind. |
| CacheEffects.RemoteUnlinkDoes | fs3.29实现远程创建删除读写版/wjfs.c:313-321 | The peer's unlink gets through exactly for a mirror, which loses its pin and its slot and is gone if nobody uses it, and otherwise stays as it is. |
| CacheEffects.RemoteRmdirDoes | fs3.29实现远程创建删除读写版/wjfs.c:232-241 | The peer's rmdir does the same if there is no live child, and otherwise only frees the slot. |
| CacheEffects.LookupDoes | linux-2.6.32.21/fs/namei.c:1185-1226 | A lookup adds a user to the hashed child of that name or to a new negative child, and changes nothing in a removed directory without such a child. |
| CacheEffects.OpenDoes | linux-2.6.32.21/fs/dcache.c:215-259 | Opening adds one user and changes nothing else. |
| CacheEffects.CloseDoes | linux-2.6.32.21/fs/dcache.c:215-259 | Closing takes one user away; the entry goes if that was the last and it has no pin and no children, and every other entry stays or is gone if nobody held it. |
| Dcaches.Dcache.constructor | fs3.29实现远程创建删除读写版/wjfs.c:393-459 | A mounted file system starts with a root held once and the count invariant true. |
| Dcaches.Dcache.Kill | linux-2.6.32.21/fs/dcache.c:168-184 | Freeing an entry at its last reference removes only it; everything about the others but their lists and counts is as before. |
| Dcaches.Dcache.Release | linux-2.6.32.21/fs/dcache.c:215-259 | dput restores the count invariant, frees the entry exactly when this was its last reference, then its parents in turn, and frees only unpinned entries nobody holds. |
| Dcaches.Dcache.Put | linux-2.6.32.21/fs/dcache.c:215-259 | A caller's dput gives back one of the caller's references and keeps the count invariant. |
| Dcaches.Dcache.Get | fs3.29实现远程创建删除读写版/wjfs.c:98-98 | dget adds one reference and one caller and changes nothing else; the invariant is kept. |
| Dcaches.Dcache.Find | linux-2.6.32.21/fs/dcache.c:1360-1419 | Returns the one hashed child of that name, or there is none; no two hashed children of a directory share a name. |
| Dcaches.Dcache.Lookup | linux-2.6.32.21/fs/namei.c:1185-1226 | The caller gets a reference on the hashed child of that name if there is one, and otherwise on a new negative entry, except in a removed directory, where the lookup fails and nothing changes. |
| Dcaches.Dcache.Alloc | linux-2.6.32.21/fs/dcache.c:917-971 | A new negative entry holds a reference on its parent; the count invariant is kept. |
| Dcaches.Dcache.Instantiate | fs3.29实现远程创建删除读写版/wjfs.c:96-98 | A negative entry gets the inode and its pin, and the invariant is kept. |
| Dcaches.Dcache.Delete | linux-2.6.32.21/fs/dcache.c:1507-1530 | An entry only the caller holds becomes negative, any other is unhashed; no count changes. |
| Dcaches.Dcache.Unpin | linux-2.6.32.21/fs/libfs.c:287-295 | Dropping the pin keeps the invariant and frees the entry exactly when the pin was the last reference; otherwise nothing but the count changes. |
| Dcaches.Dcache.Admit | fs3.29实现远程创建删除读写版/wjfs.c:77-108 | Lookup and mknod have exactly the effect of a creation, with the lookup's reference still held; the lookup fails exactly in a removed directory without such a child, and the creation succeeds if and only if it does not and no live entry has the name. |
| Dcaches.Dcache.HoldLookup | linux-2.6.32.21/fs/namei.c:1185-1226 | A lookup whose reference a caller keeps adds that reference, and a negative entry if there was none, and leaves everything else and the invariant; it fails exactly in a removed directory without such a child. |
| Dcaches.Dcache.Close | linux-2.6.32.21/fs/dcache.c:215-259 | Closing takes one reference away and then frees exactly what nobody holds any more. |
| Dcaches.Dcache.Withdraw | fs3.29实现远程创建删除读写版/wjfs.c:289-305 | Unlink drops the pin of an own entry, leaves a mirror its pin, and d_delete takes either out of the name space, while the caller holds it. |
| Dcaches.Dcache.DropLookup | fs3.29实现远程创建删除读写版/wjfs.c:1797-1797 | A plain decrement on a pinned entry gives back the lookup reference and keeps the count invariant. |
| Dcaches.Dcache.Create | fs3.29实现远程创建删除读写版/wjfs.c:77-153 | Around the caller's lookup and dput, creation in a directory of the name space has exactly its effect, and then only entries nobody holds are freed; it succeeds if and only if no live entry has the name. |
| Dcaches.Dcache.RemoteCreate | fs3.29实现远程创建删除读写版/wjfs.c:2220-2248 | Creation on behalf of the peer with its plain decrement of the lookup reference has the same effect and records the inode; it stops the kernel if and only if the name is empty or has a slash, the parent is no directory, the parent is a removed directory without a hashed child of that name, or a live entry has the name. |
| Dcaches.Dcache.Link | fs3.29实现远程创建删除读写版/wjfs.c:275-286 | A hard link has exactly the effect of creating an entry with the target's inode. |
| Dcaches.Dcache.Unlink | fs3.29实现远程创建删除读写版/wjfs.c:289-310 | unlink(2) unhashes the entry and drops the pin of an own entry but not of a mirror; then entries nobody holds are freed, an own entry nobody uses among them. |
| Dcaches.Dcache.SimpleEmpty | linux-2.6.32.21/fs/libfs.c:272-285 | True exactly when no child is live. |
| Dcaches.Dcache.Rmdir | fs3.29实现远程创建删除读写版/wjfs.c:207-230 | The same for a directory; it refuses exactly an own directory with a live child, and takes a mirror out of the name space whatever is in it. |
| Dcaches.Dcache.RemoteUnlink | fs3.29实现远程创建删除读写版/wjfs.c:313-321 | A childless mirror nobody holds is freed; any other stays exactly as it is, without its pin and out of the mapping table. |
| Dcaches.Dcache.RemoteRmdir | fs3.29实现远程创建删除读写版/wjfs.c:232-241 | Drops the pin exactly when no child is live, frees the mirror exactly when also nobody uses it, and forgets its inode in any case. |
| Dcaches.Dcache.Step | fs3.29实现远程创建删除读写版/wjfs.c:77-321 | Each operation that the kernel lets through does exactly its effect followed by freeing what nobody holds; it reports exactly the operations that break the cache: a creation for the peer that stops the kernel, and the removal of an own entry without its pin. |
| Dcaches.Session | fs3.29实现远程创建删除读写版/save.c:542-655 | Mount, any sequence of operations, unmount: the ghost trace relates every state to the next by its operation, up to the first that breaks the cache; the last state decides whether the unmount is refused, stops with BUG, or leaves no dentry; without leaks it leaves none. |
| StuckRuns.RemovedWhileInUse | fs3.29实现远程创建删除读写版/wjfs.c:232-241 | A run whose unmount stops: the peer makes a directory, a process opens it, the peer removes it, the process makes a file in it and closes it. |
| StuckRuns.MirrorRemovedHere | fs3.29实现远程创建删除读写版/wjfs.c:289-310 | A run whose unmount stops: the peer makes a file and a process here removes the mirror. |
| StuckRuns.RemovedWhileOpenOnly | fs3.29实现远程创建删除读写版/wjfs.c:232-241 | A run that comes close: closing the removed directory without having used it frees it, and the unmount leaves nothing. |
| StuckRuns.CreatedInDeadMirror | linux-2.6.32.21/fs/namei.c:2191-2222 | A run that stops the kernel before the unmount: the peer makes a directory, a process here removes the mirror, and the peer makes a file in it. |
| StuckRuns.DeadRun | fs3.29实现远程创建删除读写版/wjfs.c:2229-2234 | In that run the third operation is reached, its name is not taken, and its lookup fails. |
| StuckRuns.MadeAndRemoved | fs3.29实现远程创建删除读写版/wjfs.c:77-310 | A run that goes through: a process makes a directory, a file in it and a second name for the file and removes all of them; nothing is left and the unmount does not stop. |
| StuckRuns.OwnRun | fs3.29实现远程创建删除读写版/wjfs.c:77-310 | The name space on the way: both names with one inode, then the second name alone, then nothing but the root. |
| Searches.Find | fs3.29实现远程创建删除读写版/wjfs.c:2277-2368 | Both recursive searches return the first match in child-before-parent order over positive entries. |
| Searches.VisitHits | fs3.29实现远程创建删除读写版/wjfs.c:2284-2314 | The search order contains each entry once if all its ancestors are positive, and otherwise not at all. |
| Searches.FindComplete | fs3.29实现远程创建删除读写版/wjfs.c:2277-2368 | A search fails if and only if no entry reached through positive entries matches; what it returns matches and is so reached. |
| Isomorphism.VisitRenamed | fs3.29实现远程创建删除读写版/wjfs.c:2277-2316 | On two trees of the same shape the search visits corresponding entries in the same order. |
| Isomorphism.GrowShape | fs3.29实现远程创建删除读写版/wjfs.c:2220-2248 | Adding corresponding entries below corresponding parents keeps two trees isomorphic. |
| Isomorphism.PruneShape | fs3.29实现远程创建删除读写版/wjfs.c:313-321 | Removing corresponding leaves keeps two trees isomorphic. |
| Decimal.StringToInt | fs3.29实现远程创建删除读写版/wjfs.c:2207-2217 | With 32-bit overflow on the way the result is the exact value of the signed characters' distances from '0' as decimal digits, wrapped once. |
| Decimal.ValueOfDec | fs3.29实现远程创建删除读写版/wjfs.c:2207-2217 | Every natural number has the value its printed digits stand for, with as few digits as possible. |
| Decimal.IntRoundTrip | fs3.29实现远程创建删除读写版/wjfs.c:2207-2217 | Printing an int and reading it with string2int gives it back if and only if it is not negative or is -2115098112. |
| Wire.ReadRow | fs3.29实现远程创建删除读写版/wjfs.c:1749-1754 | The inner loop copies exactly the characters up to the next delimiter and stays inside its 20-byte row. |
| Wire.Tokenize | fs3.29实现远程创建删除读写版/wjfs.c:1743-1757 | On any input within the row limits the rows are the pieces between spaces, carriage returns and line feeds, with an empty last piece dropped. |
| Wire.SplitJoin | fs3.29实现远程创建删除读写版/wjfs.c:1353-1360 | Joining delimiter-free pieces with spaces and splitting again gives the pieces back. |
| Wire.SplitAtFirst | fs3.29实现远程创建删除读写版/wjfs.c:1738-1755 | A space, a carriage return or a line feed ends a piece, and no other character does. |
| Wire.MsgRoundTrip | fs3.29实现远程创建删除读写版/wjfs.c:1353-1360 | A create or remove message survives printing and parsing if and only if its names hold no delimiter and its inode numbers survive string2int. |
| Wire.PrintedFits | fs3.29实现远程创建删除读写版/wjfs.c:1429-1436 | The printed message fits the table of rows if and only if both names are shorter than 20 bytes. |
| Wire.PrintedText | fs3.29实现远程创建删除读写版/wjfs.c:1354-1435 | The text of a create or remove message, field by field. |
| Wire.ReadMsg | fs3.29实现远程创建删除读写版/wjfs.c:1858-1879 | The parser of rdma_create and rdma_remove recovers exactly the message that the pieces of the buffer stand for. |
| Wire.Strip | fs3.29实现远程创建删除读写版/wjfs.c:1955-1962 | The text is unchanged exactly when it holds no carriage return and no line feed. |
| Wire.StripEach | fs3.29实现远程创建删除读写版/wjfs.c:1945-1962 | Every character but carriage returns and line feeds stays, in order. |
| Wire.WrittenText | fs3.29实现远程创建删除读写版/wjfs.c:1502-1518 | The text of a write message, field by field. |
| Wire.HeadJoin | fs3.29实现远程创建删除读写版/wjfs.c:1516-1518 | Five delimiter-free fields and any rest, joined with spaces, come apart into the same fields and the same rest. |
| Wire.WriteRoundTrip | fs3.29实现远程创建删除读写版/wjfs.c:1516-1518 | A write message comes apart into its five header fields and its payload unchanged, whatever the payload holds. |
| Wire.TokenizeWrite | fs3.29实现远程创建删除读写版/wjfs.c:1938-1962 | The two-stage parser yields the five header fields, and a payload equal to the rest with exactly the carriage returns and line feeds removed, spaces kept; the payload row is set exactly when something is left. |
| Wire.StripRow | fs3.29实现远程创建删除读写版/wjfs.c:1955-1962 | The second stage copies everything but line breaks into one row and stays inside it. |
| MappTables.MappTable.constructor | fs3.29实现远程创建删除读写版/wjfs.c:451-456 | After mounting all 1024 slots are free. |
| MappTables.MappTable.Insert | fs3.29实现远程创建删除读写版/wjfs.c:1800-1813 | Fills the first free slot and no other; reports that there is none exactly when all are used. |
| MappTables.MappTable.Remove | fs3.29实现远程创建删除读写版/wjfs.c:1885-1897 | Frees the first used slot of the key and no other, and reports the mirror it stood for. |
| MappTables.MappTable.Translate | fs3.29实现远程创建删除读写版/wjfs.c:1502-1513 | Returns the owner's key of the first used slot of a mirror, or (0, 0) if there is none. |
| MappTables.MappTable.IsMyFile | fs3.29实现远程创建删除读写版/wjfs.c:2371-2386 | False exactly for the local inodes of used slots. |
| MappTables.FullIffUsed | fs3.29实现远程创建删除读写版/wjfs.c:1801-1807 | Insertion finds no slot if and only if every slot is used. |
| MappTables.InsertRefines | fs3.29实现远程创建删除读写版/wjfs.c:1800-1813 | Inserting a new key and a new mirror adds exactly one entry to the map the table stands for and uses one more slot. |
| MappTables.RemoveRefines | fs3.29实现远程创建删除读写版/wjfs.c:1885-1897 | Removing a key takes exactly that entry out of the map and frees one slot if it was there; the mirror reported is the one the map has. |
| MappTables.TranslateRefines | fs3.29实现远程创建删除读写版/wjfs.c:1502-1513 | Translating a mirror inverts the map; it fails exactly for mirrors that are not in it. |
| MappTables.MirrorIffEntry | fs3.29实现远程创建删除读写版/wjfs.c:2371-2386 | is_my_file is false exactly for local inodes in the map. |
| MappTables.TableRun | fs3.29实现远程创建删除读写版/wjfs.h:56-65 | Over every run that brings new keys and mirrors and never overfills it, the table refines a finite map, and the used slots are the size of that map. |
| Mirroring.FindBy | fs3.29实现远程创建删除读写版/wjfs.c:2277-2368 | On a well-formed name space a search from the root finds nothing if and only if no entry below the root matches. |
| Mirroring.PossibleKeeps | fs3.29实现远程创建删除读写版/wjfs.c:77-321 | Each of the owner's operations leaves a well-formed name space. |
| Mirroring.MakeAdds | fs3.29实现远程创建删除读写版/wjfs.c:77-153 | create and mkdir under a free name without delimiters go through and add exactly one entry, of that name, kind and parent, at the head of the list; names, kinds, parents and lists of all others stay. |
| Mirroring.DropTakes | fs3.29实现远程创建删除读写版/wjfs.c:207-310 | unlink and rmdir of a childless entry go through and take exactly that entry away. |
| Mirroring.DeliverAdds | fs3.29实现远程创建删除读写版/wjfs.c:1735-1840 | What the server's creation does, by the fields of the message: it stops the kernel exactly when the parent is missing or no directory, or the name is empty, has a slash or is taken there; otherwise it adds exactly one entry of that name and kind below the parent found, and the slot for it. |
| Mirroring.MessageText | fs3.29实现远程创建删除读写版/wjfs.c:1354-1435 | The text of the message: opcode, inode and name of the entry, inode and name of its parent, 1111 for a directory and 0000 for a file. |
| Mirroring.MessageArrives | fs3.29实现远程创建删除读写版/wjfs.c:1735-1764 | What an operation prints fits the peer's rows and parses back to the same message. |
| Mirroring.FindRenamed | fs3.29实现远程创建删除读写版/wjfs.c:1775-1788 | On a mirror the search finds the mirror of what it finds on the owner's tree. |
| Mirroring.TakenFor | fs3.29实现远程创建删除读写版/wjfs.c:1778-1786 | The entry the lookup by name takes for the parent is the parent if and only if its name resolves to it. |
| Mirroring.TakenRenamed | fs3.29实现远程创建删除读写版/wjfs.c:2229-2229 | A name is taken below a mirror exactly when it is taken below the mirrored directory. |
| Mirroring.DeliverMake | fs3.29实现远程创建删除读写版/wjfs.c:1735-1840 | The peer creates below the mirror of the entry the name finds, and stops exactly when that entry is no directory or the name is taken there. |
| Mirroring.CreateMirrors | fs3.29实现远程创建删除读写版/wjfs.c:1789-1838 | Delivering the message of a legal creation extends the correspondence of trees, names, kinds and table by exactly the new pair. |
| Mirroring.NoRoom | fs3.29实现远程创建删除读写版/wjfs.c:1800-1813 | With a full table no correspondence holds after a creation. |
| Mirroring.OnlyRightPlace | fs3.29实现远程创建删除读写版/wjfs.c:1775-1788 | If the name spaces correspond after a creation, the mirror was put below the mirror of the right parent. |
| Mirroring.CreateMirroredIffLegal | fs3.29实现远程创建删除读写版/wjfs.c:1735-1840 | Delivering a creation ends in a mirrored state if and only if the parent's name resolves to the parent and the table has room. |
| Mirroring.SlotOf | fs3.29实现远程创建删除读写版/wjfs.c:1883-1897 | The key of an entry finds the slot of its mirror. |
| Mirroring.InoFound | fs3.29实现远程创建删除读写版/wjfs.c:2320-2368 | With unique inode numbers the inode search returns the only match, and fails exactly when the inode is not below the root. |
| Mirroring.DeliverDrop | fs3.29实现远程创建删除读写版/wjfs.c:1843-1927 | The peer frees the right slot, and removes the mirror of the right entry or, if somebody holds it, leaves it without its pin. |
| Mirroring.RemoveMirrors | fs3.29实现远程创建删除读写版/wjfs.c:1843-1927 | Delivering a removal takes exactly that pair out of the correspondence, if nobody holds the mirror. |
| Mirroring.RemoveMirroredIffFree | fs3.29实现远程创建删除读写版/wjfs.c:1843-1927 | Without strays, delivering a removal ends in a mirrored state if and only if nobody holds the mirror. |
| Mirroring.UniqueNameResolves | fs3.29实现远程创建删除读写版/wjfs.c:1785-1785 | A directory whose name no other entry has is found by its name. |
| Cuts.VisitCut | fs3.29实现远程创建删除读写版/wjfs.c:2277-2318 | With some subtrees put aside, the search order of the rest is the search order of the whole without the entries put aside. |
| Cuts.CutGrow | linux-2.6.32.21/fs/dcache.c:917-971 | Adding an entry and putting others aside commute. |
| Cuts.CutMore | linux-2.6.32.21/fs/dcache.c:168-184 | Putting one more entry aside is taking it out of what is left. |
| Covering.AwayIsStrays | fs3.29实现远程创建删除读写版/wjfs.c:2371-2386 | If the peer without some entries mirrors the owner, these are exactly the entries that is_my_file takes for the peer's own. |
| Covering.FindCore | fs3.29实现远程创建删除读写版/wjfs.c:2277-2368 | A search that does not end in a stray ends where it would without strays. |
| Covering.TakenSplits | fs3.29实现远程创建删除读写版/wjfs.c:2229-2229 | A name is taken in a directory of the peer exactly when a mirror or a stray there has it. |
| Covering.CoverMake | fs3.29实现远程创建删除读写版/wjfs.c:1735-1840 | Beside strays, and unless the search ends in one, the peer creates below the mirror of what the parent's name finds on the owner's tree, and stops exactly when that is no directory or the name is taken there, by a mirror or by a stray. |
| Covering.CoverCreates | fs3.29实现远程创建删除读写版/wjfs.c:1789-1838 | The message of a legal creation extends the correspondence by the new pair and leaves the strays, if no stray of the directory has the name. |
| Covering.OnlyRightParent | fs3.29实现远程创建删除读写版/wjfs.c:1775-1813 | If the peer without its strays mirrors the owner after a creation, there was room and the mirror was put below the mirror of the right parent. |
| Covering.CoverMadeIff | fs3.29实现远程创建删除读写版/wjfs.c:1735-1840 | Over every state with strays: delivering a creation keeps the correspondence if and only if the table has room, the search ends in the mirror of the parent, and no stray there has the name. |
| Covering.CoverRemoves | fs3.29实现远程创建删除读写版/wjfs.c:1843-1927 | Over every state with strays: delivering a removal always takes exactly that pair out of the correspondence; the mirror becomes a stray if and only if somebody holds it or a stray hangs below it, and keeps its pin if and only if a stray does. |
| Covering.FreedCovers | linux-2.6.32.21/fs/dcache.c:215-259 | Freeing a stray goes on to ancestors that lost their pin and were kept only by it, and takes no mirror and no pinned entry away. |
| Covering.CoverCloses | linux-2.6.32.21/fs/dcache.c:215-259 | Closing an entry keeps the correspondence, frees a childless leftover of a removed mirror, and frees no mirror and no pinned entry. |
| Covering.NoStrays | fs3.29实现远程创建删除读写版/wjfs.c:2371-2386 | A peer without strays whose mirrors correspond to the owner mirrors the owner. |
| Covering.CloseRestores | linux-2.6.32.21/fs/dcache.c:215-259 | Once nothing is held and every stray has lost its pin, there is no stray left and the peer mirrors the owner again. |
| Covering.CoverOwns | fs3.29实现远程创建删除读写版/wjfs.c:77-153 | An entry of the peer's own becomes a stray and leaves the correspondence as it is. |
| Covering.CoverDisowns | fs3.29实现远程创建删除读写版/wjfs.c:207-310 | So does its removal, which takes it away from the strays. |
| Covering.RecreatedWhileHeld | fs3.29实现远程创建删除读写版/wjfs.c:1843-1927 | If the owner removes an entry whose mirror a process holds and makes another of that name in the same place, the second message stops the kernel, unless the search for the parent ends in a stray. |
| MirrorRuns.InitInv | fs3.29实现远程创建删除读写版/wjfs.c:451-456 | Two freshly mounted machines correspond, without strays. |
| MirrorRuns.AllSteps | fs3.29实现远程创建删除读写版/wjfs.c:77-321 | Every legal operation of the owner, every delivery that neither stops the kernel nor takes a stray for the parent, every open and close on the peer, and every entry the peer makes or removes for itself is a step of a run. |
| MirrorRuns.DeliverOne | fs3.29实现远程创建删除读写版/wjfs.c:1735-1927 | The message of any legal operation stops the kernel if and only if it is a creation and a stray of its directory has the name; otherwise it takes a peer that corresponds to the owner to one that corresponds to the owner after the operation. |
| MirrorRuns.DeliverNext | fs3.29实现远程创建删除读写版/wjfs.c:1692-1720 | The next message in flight stops the kernel exactly then, and otherwise leaves the peer behind by one operation less. |
| MirrorRuns.StepInv | fs3.29实现远程创建删除读写版/wjfs.c:1735-1927 | Every step keeps the peer's mirrors equal to the owner as it was before the messages in flight: an operation of the owner, a delivery, a process that opens or closes an entry of the peer, the peer making or removing an entry of its own. |
| MirrorRuns.RunInv | fs3.29实现远程创建删除读写版/wjfs.c:1735-1927 | In every state of every interleaving of legal owner operations, in-order deliveries, opens and closes on the peer, and entries the peer makes and removes for itself, the peer's tree, names, kinds and table, without the strays, mirror the owner as it was before the messages in flight. |
| MirrorRuns.DrainedMirrors | fs3.29实现远程创建删除读写版/wjfs.c:1735-1927 | Whenever the queue is empty the two name spaces are isomorphic but for the strays and the table is the bijection between them; if also nothing is held and no stray has a pin, they are isomorphic. |
| MirrorRuns.StopsIffInTheWay | fs3.29实现远程创建删除读写版/wjfs.c:1735-1840 | In every reachable state where the search for the parent does not end in a stray, the server stops the kernel on the next message if and only if it is a creation and a stray of that directory has the name. |
| MirrorRuns.NextKept | fs3.29实现远程创建删除读写版/wjfs.c:1735-1927 | In every reachable state, delivering the next message keeps the correspondence: a creation if and only if the search ends in the mirror of the parent and no stray there has the name, a removal always, with one more stray if and only if the mirror is held or a stray hangs below it. |
| MirrorRuns.SameNameMisleads | fs3.29实现远程创建删除读写版/wjfs.c:1785-1785 | With /a, /b and /b/a the lookup by name takes /b/a for /a, so a file made in /a would be mirrored in the wrong directory. |
| Servers.Server.constructor | fs3.29实现远程创建删除读写版/wjfs.c:451-456 | A server starts with an empty table. |
| Servers.Server.HasEntry | fs3.29实现远程创建删除读写版/wjfs.c:2229-2229 | True exactly when the directory has an entry of that name. |
| Servers.Server.FindParent | fs3.29实现远程创建删除读写版/wjfs.c:1775-1786 | The root for the root's name, otherwise the first entry of that name in search order. |
| Servers.Server.FindIno | fs3.29实现远程创建删除读写版/wjfs.c:1903-1903 | The first entry with that inode number in search order. |
| Servers.Server.Create | fs3.29实现远程创建删除读写版/wjfs.c:1735-1840 | Stops the kernel exactly when the parent is missing or no directory, or the name is empty, has a slash or is taken there; otherwise the name space gains exactly one entry, of the name and kind in the message, below the parent found, and name space and table become those of the protocol step. |
| Servers.Server.Remove | fs3.29实现远程创建删除读写版/wjfs.c:1843-1927 | Name space, table and the entries without a pin become those of the protocol step, for files and directories, held or not. |
| Servers.Server.Free | linux-2.6.32.21/fs/dcache.c:215-259 | The loop of dput frees the entry and then each ancestor that had lost its pin and was kept only by it. |
| Servers.Server.Close | linux-2.6.32.21/fs/dcache.c:215-259 | The last close of an entry leaves the mirrors corresponding to the owner and frees strays without a pin only; when the last of these goes and nothing else is held, the peer mirrors the owner again. |
| Servers.Server.Handle | fs3.29实现远程创建删除读写版/wjfs.c:1692-1720 | One pass of the server over a create, remove or foreign message refines the protocol step, including when it stops the kernel; it ends its loop exactly on quit. |
| Servers.Server.Drain | fs3.29实现远程创建删除读写版/wjfs.c:1673-1724 | With nothing held and no strays, handling every message in flight never stops the kernel or the loop and ends with the owner mirrored. |
| Servers.HeldAcrossRemoval | fs3.29实现远程创建删除读写版/wjfs.c:1843-1927 | A process opens a mirror, the removal of its entry arrives, and the process closes it: in the end the server mirrors the owner after the removal. |
| WriteThrough.PutIsSplice | fs3.29实现远程创建删除读写版/wjfs.c:2105-2151 | Byte i of the file is character i of the text for the length of the text, every other byte stays, and the file is as long as before or as the text. |
| WriteThrough.TranslatesBack | fs3.29实现远程创建删除读写版/wjfs.c:1502-1513 | The table translates a mirror to exactly the entry it mirrors, with its parent. |
| WriteThrough.WriteLands | fs3.29实现远程创建删除读写版/wjfs.c:1963-1997 | A write message changes exactly the file of the inode it names, if that inode is below the root, and nothing otherwise. |
| WriteThrough.Mirrored | fs3.29实现远程创建删除读写版/wjfs.c:1502-1513 | Every mirror mirrors an entry, under the same name and below the mirror of its parent. |
| WriteThrough.WriteIsRouted | fs3.29实现远程创建删除读写版/wjfs.c:1930-1997 | Handled on any state of the owner, a write to a mirror changes the mirrored file and no other if the owner still has it, and nothing otherwise. |
| WriteThrough.SameFile | fs3.29实现远程创建删除读写版/wjfs.c:30-44 | An inode the owner still has is the same entry under the same parent, name and kind as when it was mirrored. |
| WriteThrough.RunWriteIsRouted | fs3.29实现远程创建删除读写版/wjfs.c:1231-1270 | In every reachable state a write to a mirror reaches the file it mirrors, with the same name, and no other, whatever strays the peer has; that file then starts with the characters of the message, line breaks left out, and keeps its other bytes. |
| WriteThrough.FileServer.Write | fs3.29实现远程创建删除读写版/wjfs.c:1930-1997 | The imperative handler refines the routing step on the files' page caches: only the file of the inode in the header can change, and it then starts with the characters of the payload and keeps its other bytes. |
| WriteThrough.SendWrite | fs3.29实现远程创建删除读写版/wjfs.c:1502-1518 | The message sent carries the owner's inode numbers of the mirror. |
| Pages.PageSlice | fs3.29实现远程创建删除读写版/wjfs.c:562-592 | Part of a cached page within the file is that part of the file. |
| Pages.CacheZeroPage | linux-2.6.32.21/fs/libfs.c:332-339 | Caching a zero-filled page changes no byte of the file. |
| Pages.Splice | fs3.29实现远程创建删除读写版/wjfs.c:991-1077 | What a write promises: the data at the position, all other bytes as before, zeros in a gap, the size the larger of old size and end of data; no data changes nothing. |
| Pages.PatchIsSplice | linux-2.6.32.21/fs/libfs.c:391-405 | Zeroing the uncopied part and extending the file keep the splice promise if and only if the zeroed bytes were zero already and, without data, the position lies in the file. |
| Pages.PatchPatch | fs3.29实现远程创建删除读写版/wjfs.c:1007-1074 | Two chunks one after the other are one chunk with both their data. |
| Pages.ChunkBytes | linux-2.6.32.21/fs/libfs.c:353-405 | write_begin, the copy and write_end on one page change the bytes of the file to exactly the patch, and keep what lies past the end zero. |
| IovIters.Gather | fs3.29实现远程创建删除读写版/wjfs.c:948-968 | The gather over segments copies exactly the wanted stretch of their concatenation, up to the first byte that faults. |
| IovIters.CopyFromUser | fs3.29实现远程创建删除读写版/wjfs.c:970-989 | The single-segment path and the general gather copy the same bytes, also for partial copies. |
| IovIters.SkipOver | linux-2.6.32.21/mm/filemap.c:1951-1973 | Advancing leaves exactly the remaining bytes, each with as much of its segment left as before, and never stops before an empty segment while bytes are left. |
| IovIters.Advance | linux-2.6.32.21/mm/filemap.c:1943-1975 | After advancing the cursor stands for the source without the bytes passed. |
| IovIters.SegmentLeft | linux-2.6.32.21/mm/filemap.c:1997-2004 | The single-segment count is what is left of the current segment, within what is left at all. |
| IovIters.InitIter | linux-2.6.32.21/include/linux/fs.h:531-541 | A new cursor stands for the first count bytes of the segments. |
| FileIo.PageRoom | fs3.29实现远程创建删除读写版/wjfs.c:668-684 | The i_size check yields the number of bytes of the file on this page from the offset on, and leaves the loop exactly when there are none. |
| FileIo.ReadActor | fs3.29实现远程创建删除读写版/wjfs.c:562-592 | Delivers a prefix of the page from the offset, as long as the room and the faults allow, and reports EFAULT exactly when a byte faulted. |
| FileIo.Inode.GetPage | fs3.29实现远程创建删除读写版/wjfs.c:627-660 | The page is in the cache afterwards, and no byte of the file changed. |
| FileIo.Inode.ReadTurn | fs3.29实现远程创建删除读写版/wjfs.c:627-721 | One turn delivers exactly what is left on its page of the wanted bytes less what faults, and its error is exactly the one the environment causes; it asks for another turn only at the end of the page or file, and stops without an error only when all is delivered. |
| FileIo.Inode.ReadSegment | fs3.29实现远程创建删除读写版/wjfs.c:599-819 | For any start, length and behaviour of pages and user memory, the loop terminates, delivers a prefix of the readable bytes in order, keeps count plus delivered constant, and moves the position by what it delivered; without an error it delivers exactly the bytes from pos to min(pos + total, size); it ends in a turn that is the first to fail, if any does, and the turn fixes the number of bytes and the error. |
| FileIo.Inode.ReadInto | fs3.29实现远程创建删除读写版/wjfs.c:867-875 | One segment of the loop, which ends as the environment makes it end, with empty ones passed by. |
| FileIo.Inode.AioRead | fs3.29实现远程创建删除读写版/wjfs.c:864-885 | Over all segments the concatenated output is a prefix of the readable bytes, all of them without an error, and every segment but the last one reached is filled; each non-empty segment ends exactly as the behaviour of its pages and memory makes it end, the loop stops at the first that is short or fails, and the return value is the number of bytes or the error. |
| FileIo.Inode.WritePage | fs3.29实现远程创建删除读写版/wjfs.c:1020-1058 | One pass patches the file with the bytes copied and leaves the cursor at the rest. |
| FileIo.Inode.PerformWrite | fs3.29实现远程创建删除读写版/wjfs.c:991-1077 | For any segments, position, faults and retries: each pass copies exactly the smaller of what its attempt allows and what it asks for, the rest of the page or of the source, and after an empty copy no more than the current segment; passes go on until all is written or an attempt fails, and what was written is their sum, or the error if that is 0. The file is the old one with that much of the source at pos, zeros after it to the end of the page or request, unless the last pass copied up to the end of a page, and grown to pos if nothing was copied; a complete write is exactly the splice, and any write is exactly when the zeroed bytes were zero and no data-less growth happened. |
| FileIo.Inode.AioWrite | fs3.29实现远程创建删除读写版/wjfs.c:1079-1205 | The return value and the new position are the number of bytes written, pass by pass as for the loop over the caller's segments, and the file changed accordingly; a failed write leaves the file unchanged if and only if its first attempt failed, or the position lies in the file and the bytes asked for on its page were zero. |
| FileIo.Inode.WriteThenRead | fs3.29实现远程创建删除读写版/wjfs.c:599-1106 | A complete write makes the file the splice, and a read of the same length at the same position returns the written bytes, for every alignment and every split into segments on both sides; in any case the read returns what the file holds there. |
| FileIo.ReadBack | fs3.29实现远程创建删除读写版/wjfs.c:599-1106 | Reading at the position of a splice gives the spliced data. |
| FileIo.ShortCopyLosesBytes | linux-2.6.32.21/fs/libfs.c:396-402 | Asking for two bytes over "AB" and copying one leaves the second byte zero: the splice promise fails on short copies. |
| FileIo.FailedWriteGrows | linux-2.6.32.21/fs/libfs.c:385-386 | One byte asked for at 5000 of an empty file, a copy that faults at once and then a failed attempt: the write returns -EFAULT and the file has size 5000. |
| FileIo.CopiedOnce | fs3.29实现远程创建删除读写版/wjfs.c:1007-1074 | The attempts, the position and the segments determine what each pass copies. |
| FileIo.WithinLimits | fs3.29实现远程创建删除读写版/wjfs.c:1007-1074 | No more is written than the attempts allow, and exactly that much if none allows more than its pass asks for. |
| FileIo.InterruptedWrite | fs3.29实现远程创建删除读写版/wjfs.c:1044-1076 | Twenty bytes, ten copied before a fault and then a failed attempt: the write returns 10. |
| FileIo.StoppedAtPage | fs3.29实现远程创建删除读写版/wjfs.c:1014-1022 | Twenty bytes six before the end of a page and a failure at the second pass: the write returns 6. |
| PageBalance.StepBalanced | fs3.29实现远程创建删除读写版/wjfs.c:619-810 | Each label of the read loop keeps exactly one reference on the current page, and its lock, exactly where the label says so. |
| PageBalance.RunBalanced | fs3.29实现远程创建删除读写版/wjfs.c:619-810 | The same in every state of every run, for every behaviour of the environment. |
| PageBalance.EverythingReleased | fs3.29实现远程创建删除读写版/wjfs.c:619-810 | On every path no page is used, locked, unlocked or released unless it is held, no locked page is released, and at the end every reference and every lock obtained has been given back exactly once. |
| PageBalance.CachedPage | fs3.29实现远程创建删除读写版/wjfs.c:627-721 | A cached page that is up to date is used and released, and the loop goes on exactly if more is wanted. |
| PageBalance.MissingPage | fs3.29实现远程创建删除读写版/wjfs.c:788-809 | A page that is not cached is added locked, read, checked, used and released; if reading fails it is released and the loop ends. |
| PageBalance.StalePage | fs3.29实现远程创建删除读写版/wjfs.c:722-786 | A cached page that is not up to date is locked, read and checked before it is used. |
| PageBalance.PartlyUpToDate | fs3.29实现远程创建删除读写版/wjfs.c:640-740 | With the lock free at once, a page up to date where it matters is used as it is, any other is read with the lock held; a page filled while waiting for the lock is used. |
| PageBalance.GivesUp | fs3.29实现远程创建删除读写版/wjfs.c:722-795 | A process killed while waiting for a lock, or without memory for a page, leaves the loop with everything given back. |
| PageBalance.AddedByOthers | fs3.29实现远程创建删除读写版/wjfs.c:788-809 | A page that somebody else added first is released and the search starts again; any other failure to add it ends the loop. |
| PageBalance.TruncatedWhileRead | fs3.29实现远程创建删除读写版/wjfs.c:753-757 | A page truncated while it was read is released, and the search starts again. |
| PageBalance.TruncatedMeanwhile | fs3.29实现远程创建删除读写版/wjfs.c:729-735 | A page truncated before its lock was taken is unlocked and released, and the search starts again. |
| PageBalance.ReadAgain | fs3.29实现远程创建删除读写版/wjfs.c:762-781 | A page still not up to date after reading is locked again: truncated pages start the search again, others end the loop with an error. |
| Seqcount.StepInv | fs3.29实现远程创建删除读写版/wjfs.c:2153-2205 | Every memory access of a writer or the reader keeps the seqcount invariant. |
| Seqcount.EachAccess | fs3.29实现远程创建删除读写版/wjfs.c:2153-2205 | What each memory access of a writer and of the reader does, whatever the other side is doing. |
| Seqcount.RunInv | fs3.29实现远程创建删除读写版/wjfs.c:2153-2205 | The invariant holds after every interleaving. |
| Seqcount.AcceptedIsCurrent | fs3.29实现远程创建删除读写版/wjfs.c:2153-2205 | In every interleaving a size the reader accepts is the whole size of the file at that moment with no writer under way, unless the counter went round completely while it was reading. |
| Seqcount.WrittenWhole | linux-2.6.32.21/include/linux/fs.h:850-863 | A size of the file is the first one or one that some writer wrote. |
| Seqcount.ReaderAlone | fs3.29实现远程创建删除读写版/wjfs.c:2160-2166 | Left alone the reader returns the size after one round. |
| Seqcount.TornAfterWrap | fs3.29实现远程创建删除读写版/wjfs.c:2198-2205 | With 2^31 writes between its two loads the reader accepts the high word of one size and the low word of another. |
| LinkCounts.MadeKeeps | fs3.9/wjfs.c:106-142 | A new inode, with the parent counted up for a directory, keeps every link count exact. |
| LinkCounts.LinkedKeeps | fs3.9/wjfs.c:233-244 | One more name and one more link keep every count exact. |
| LinkCounts.UnlinkedKeeps | fs3.9/wjfs.c:247-256 | One name and one link less keep every count exact. |
| LinkCounts.RemovedDirKeeps | fs3.9/wjfs.c:201-211 | Removing an empty directory with two decrements of it and one of its parent keeps every count exact. |
| LinkCounts.RenamedSound | fs3.9/wjfs.c:144-174 | A rename leaves a sound name space: live parents, one name per directory, dead exactly what was replaced. |
| LinkCounts.RenamedExact | fs3.29实现远程创建删除读写版/wjfs.c:154-180 | The 3.9 rename keeps every count exact; the 3.29 rename does if and only if it does not replace a directory, which otherwise stays at one link. |
| LinkCounts.OneLinkStays | fs3.29实现远程创建删除读写版/wjfs.c:154-180 | Two empty directories for which the 3.29 rename leaves the replaced one with one link. |
| LinkCounts.RenamedRooted | linux-2.6.32.21/fs/namei.c:2748-2758 | Moving a directory to a place that is not below itself keeps every live directory below the root. |
| LinkCounts.Namespace.IsAtOrAbove | linux-2.6.32.21/fs/namei.c:1456-1486 | The walk towards the root meets a directory if and only if it is the start or above it. |
| LinkCounts.Namespace.RenameCheck | linux-2.6.32.21/fs/namei.c:2658-2677 | The checks give exactly the code of the first condition that fails. |
| LinkCounts.Namespace.MoveName | fs3.9/wjfs.c:157-168 | The link arithmetic of the 3.9 rename is exactly the specified one. |
| LinkCounts.Namespace.constructor | fs3.9/wjfs.c:55-99 | A new file system has a root with two links and exact counts. |
| LinkCounts.Namespace.Mknod | fs3.9/wjfs.c:106-126 | Fails exactly for a taken name, a dead or no directory, or no memory; otherwise one name for one new inode. |
| LinkCounts.Namespace.Make | fs3.9/wjfs.c:128-142 | create and mkdir add exactly one name, with exact error conditions, and keep link counts exact and directories a tree. |
| LinkCounts.Namespace.Unlink | fs3.9/wjfs.c:247-256 | Takes exactly one name away, with exact error conditions, and keeps link counts exact and directories a tree. |
| LinkCounts.Namespace.Rmdir | fs3.9/wjfs.c:201-211 | Takes exactly one empty directory away, which ends with no link, with exact error conditions, and keeps link counts exact and directories a tree. |
| LinkCounts.Namespace.Link | fs3.9/wjfs.c:233-244 | Adds exactly one name for a file, with exact error conditions, and keeps link counts exact and directories a tree. |
| LinkCounts.Namespace.Rename | fs3.9/wjfs.c:144-174 | Moves exactly one name, replacing an empty target of the same kind or none, in the same or another directory, with exact error conditions, the refusal to move a directory below itself among them; link counts stay exact and directories a tree. |
| LinkCounts.Namespace.Session | fs3.9/wjfs.c:55-256 | Every run: a trace of states in which each operation did exactly its change of names with its exact code, and in each state every live directory has 2 links plus one per subdirectory, each file one per name, each removed directory none, and all directories hang below the root. |
| LinkCounts.MakeSucceeds | fs3.9/wjfs.c:106-142 | create and mkdir succeed if and only if the name is free in a live directory and there is memory; the name then has a new inode of that kind with one or two links, and no other name differs. |
| LinkCounts.UnlinkSucceeds | fs3.9/wjfs.c:247-256 | unlink succeeds if and only if the name is a file's; that name is then nobody's and no other differs. |
| LinkCounts.RmdirSucceeds | fs3.9/wjfs.c:201-211 | rmdir succeeds if and only if the name is a directory's in which there is no name; that name is then nobody's, the directory is dead without a link, and no other name differs. |
| LinkCounts.LinkSucceeds | fs3.9/wjfs.c:233-244 | link succeeds if and only if the old name is a file's and the new one is free in a live directory; the new name is then the file's too, and no other differs. |
| LinkCounts.RenameSucceeds | fs3.9/wjfs.c:144-174 | rename succeeds if and only if it moves into a live directory not below what it moves and replaces nothing, its own inode, a file by a file or an empty directory by a directory; the new name is then the moved inode's, the old one nobody's, and no other differs. |
| LinkCounts.Refusals | fs3.9/wjfs.c:106-256 | The error of every other operation that is refused. |
| LinkCounts.RenameRefuses | fs3.9/wjfs.c:144-174 | The error of a rename that is refused, by its reason. |

## Left out

- Dcaches.Dcache.RemoteCreate: says nothing about the state after the kernel stopped, because nothing runs after it.
- MappTables.MappTable.Insert: with no free slot the original writes past the array; the model leaves the table as it is and reports it.
- WriteThrough.WriteIsRouted: asks for a non-empty payload that fits the 20-byte row, because the original otherwise reads or writes memory outside the row. A file that the owner has unlinked and still holds open counts as gone; the original still finds it by inode number and writes to it.
- WriteThrough.RunWriteIsRouted: the same for a file unlinked and still open on the owner.
- Servers.Server.Handle: asks that a create or remove message has six tokens that fit the rows, because the original otherwise reads rows it did not set.
- Seqcount.AcceptedIsCurrent: assumes sequential consistency, because the barriers are commented out in the source and the memory model of the processor is not modelled.
- FileIo.Inode.PerformWrite: takes a finite list of attempts, after which copies succeed; the original can retry for ever if every copy faults.
- LinkCounts.Namespace.RenameCheck: a rename into a removed directory gives ENOENT, where the kernel says EINVAL if that directory was below the moved one.
- LinkCounts.Namespace.Rename: the same code for a rename into a removed directory.
- Dcaches.Dcache.Step: leaves out the local removal of an own entry whose pin is gone, because it gives back somebody else's reference; a run ends before it, and Session says so.
- MirrorRuns.RunInv: a run ends before a creation for which the search takes a stray for the parent, because the new mirror then hangs below the stray; NextKept says exactly when that is.
- FileIo.Inode.ReadSegment: keeps the file fixed during one read; concurrent truncation appears only in PageBalance.
- Dentries and inodes as separate objects linked by pointers: the dentry cache is one object with a map per dentry field, which a freed dentry leaves, and a file is one object with its page cache; aliasing between objects is not modelled.
- Name and address columns of the mapping table: only printed.
- The messages a peer sends for entries of its own, and operations of both peers on one directory: the protocol does not order them. Entries of its own have names that the protocol can carry.
- The local removal of a mirror while mirroring goes on: it is in `Dcaches` only.
- Owner-side rename and hard link while mirroring: they send no message.
- rdma_read, get_file_message and the alternating counter in wjfs_read: the reply depends on uninitialised bytes and call parity.
- The dispatch order of the server when a read reply starts with another opcode: follows from the same reply.
- Reference counts across rename (d_move), d_lru lists, inode reference counts, RCU and dcache_lock.
- Wrap-around of 32-bit reference counts, link counts and inode numbers.
- Direct I/O, readahead, dcache flushing, timestamps, permissions, suid removal, sync writes, file size limits beyond a cut of the count.
- Socket setup, module init and exit, mount options, symlink debug triggers, the older snapshots.
