# A verified model of smb-mem-lib's stateful core

This Dafny project models five parts of an in-memory SMB2 server library and proves what they promise over every
input, run or interleaving.

* **The in-memory filesystem and its ghost registry** (`memoryshare/memory_fs.go`). `MemoryFs.dfy` holds the classes
  `MemoryFS` and `MemoryNode`, `GhostRegistry.dfy` the class `GhostFiles`; their methods update fields and loop as the
  source does. Each method is proved to take exactly the step that `MemoryModel.Next` (for the whole filesystem) or the
  definitions of `GhostSpec.dfy` (for the registry) describe on values. On those steps rest the theorems over whole runs:
  the link and tree invariants and the flat path map (`Namespace.dfy`, `TreeLaws.dfy`), the sparse file
  (`SparseFile.dfy`), accounting, quotas and least-recently-used eviction (`GhostLaws.dfy`), and honeypot
  non-interference, reopening and isolation (`HoneypotLaws.dfy`), and what each call leaves behind (`FileLaws.dfy`).
* **The NTLMv2 handshake and message signatures** (`internal/ntlm`). `AvPairs.dfy` is the attribute-value codec,
  `NtlmSpec.dfy` the messages byte by byte, `NtlmHandshake.dfy` the classes `Client` and `Server`, `NtlmAgreement.dfy` the
  two-party agreement, `NtlmSession.dfy` the signatures and their lockstep, `NtlmLaws.dfy` who is let in, what is sent and what
  a signature covers, in bytes and hashes. Hash functions, CRC, upper-casing and the RC4
  key stream are uninterpreted functions (`NtlmSession.Primitives`). Standard: [MS-NLMP] sections 2.2.1, 2.2.2.1, 3.3.2
  and 3.4.4.
* **DCE/RPC share enumeration** (`ShareEnum.dfy`): the encoder of `internal/smb2/dcerpc.go` against the decoder of
  `internal/msrpc/msrpc.go`. Standard: [MS-SRVS] section 3.1.4.8.
* **SMB2 compounding**: the codec of `server/compound.go` and the split loop of `server/conn.go` (`Compound.dfy`), and
  the interleaving of receiver and dispatcher (`CompoundProtocol.dfy`). Standard: [MS-SMB2] sections 2.2.1.2, 3.3.4.1.3
  and 3.3.5.2.7.
* **Security descriptors** (`SecurityDescriptor.dfy`): `server/acl.go` against the entry walk of `server/file_tree.go`.
  Standard: [MS-DTYP] sections 2.4.2.2, 2.4.4.2, 2.4.5 and 2.4.6.

`Bytes.dfy` (machine words, bit operations, buffer writes), `Segments.dfy` (a buffer as consecutive segments) and
`Utf16.dfy` are shared. Modelling conventions: integers are unbounded and every wrap-around of the source is written out
(`ToInt64`, `ToUint64`, `% TWO32`, truncating `LE16` and `LE32`); the calling session, the time, random bytes, handles
and the answers of user callbacks are parameters; a Go run-time panic is the outcome `Panics` or `Crash` where the input
comes from the network, and a precondition where the source relies on its caller; each call is one atomic step.

Where the code does not do what a reader would expect, the model follows the code, and the exact condition is proved:

* `DecodeToString` drops one trailing NUL (`internal/utf16le/utf16le.go:53-55`), so `ShareNameList` returns names
  without it, and a user name that ends in a NUL fails the handshake (`AgreementIff`).
* `makeUnicodeStr` counts UTF-8 bytes where the decoder counts UTF-16 units, so a share name comes back exactly if and
  only if the two counts are equal: for valid UTF-8, if and only if it is ASCII (`RoundTripIff`).
* `parseAvPairs` looks for four zero bytes instead of an EOL pair; `encode` keeps the pairs if and only if the
  information really ends in EOL (`KeepsIffEol`).
* A ghost's size is int64. With sizes that are not negative, the counters equal the sums they cache, and the quotas are
  met, if and only if every registered size fits an int64 together with the total that the per-session phase leaves
  (`RegistrationAccounting`, `QuotasIffFits`, and over runs `RunsExactIffFits`, `RunsMeetQuotasIffFits`;
  `HugeSizesBreakTheQuota` is a concrete case). A file from 2^63 bytes up is registered with a negative size: that is
  exact (`NegativeSizeIsExact`), but the removal of another ghost of the session is not, if less than zero is left
  (`RemoveExactIff`, `NegativeSizeLosesTheEntry`).
* The recorded size of a ghost is not updated when its path is closed again (`RecordedSizeIff`), so counters and quotas
  are about recorded sizes.
* A compound chain is answered correctly under every schedule if and only if no member but the last has id zero or the id
  of its successor (`CorrectIffGoodIds`).
* `pop` goes back to its channel with the mutex held when it finds no request for an id. Two neighbours in a chain with
  one id bring that about, and the connection's dispatcher hangs for good (`DeadlockIffTwins`, `StuckForGood`).
* The split loop of the receiver panics on a chain whose members are all marked related, and on a rest of fewer than four
  bytes (`PanicsIff`, `BreaksIff`).
* In honeypot mode a read behind the content of a file panics if an accepted write has pretended to go further
  (`ReadsPanicIff`); `Mkdir` and `Rename` below a file panic on its nil map (`MemoryFS.Mkdir`, `MemoryFS.Rename`).
* Renaming the root is not refused, and ends the tree (`RunsStayTreesIff`).
* Without signing, `Seal` sends zeros instead of the message (`UnsealOfSeal`).
* `Unlink` and `Rename` delete the parent's entry under the node's name without looking whose it is. They take away a
  path of another node if and only if another node stands there (`UnlinkHarmsIff`, `RenameHarmsIff`); three calls on a
  new filesystem lead to such a state (`StaleRun`, `StaleUnlinkRemovesTheReplacement`).
* `Mkdir` of the root is not refused: it enters a child named like the root below it (`MkdirMap`).

## Model

| member | source | states |
|---|---|---|
| Namespace.SingleEntry | memoryshare/memory_fs.go:178-198 | under the link invariant no node has two directory entries |
| Namespace.UniquePath | memoryshare/memory_fs.go:265-290 | below a root that was never moved, two different paths never lead to the same node: no sharing, no cycle |
| Namespace.CreateMap | memoryshare/memory_fs.go:178-198 | entering a new node changes the flat map at its path and below, for every path |
| Namespace.DetachMap | memoryshare/memory_fs.go:918-933 | removing an entry drops exactly the paths under it |
| Namespace.DetachHarmsIff | memoryshare/memory_fs.go:918-933 | for every graph with good links: removing a node's entry takes away a path that does not lead through the node if and only if another node stands under its name in its parent |
| Namespace.MoveMap | memoryshare/memory_fs.go:1022-1063 | a rename re-keys every path with the old prefix, drops what was at the new prefix, leaves all others alone |
| Namespace.MoveBelowItselfMap | memoryshare/memory_fs.go:1031-1061 | a directory renamed below itself disappears with everything under it, and nothing else changes |
| Namespace.MovedRootLoops | memoryshare/memory_fs.go:1031-1061 | a root moved into any directory is found again, by a path that leads from the root to the root |
| Namespace.MoveHarmsIff | memoryshare/memory_fs.go:1031-1061 | moving a node does so, outside its new path, if and only if it is displaced in that way and its old place does not lie under the new path |
| Namespace.MoveKeepsLinks | memoryshare/memory_fs.go:1031-1061 | every rename, also of detached nodes, of the root or below itself, keeps every entry's name and parent pointer right |
| Namespace.MakeDirsFailsIffBlocked | memoryshare/memory_fs.go:219-262 | making a directory path fails if and only if a prefix of the path is a file |
| Namespace.FailedMakeDirsChangesNothing | memoryshare/memory_fs.go:219-262 | a failing getOrCreateDirPath leaves the whole graph as it was |
| Namespace.MakeDirsMap | memoryshare/memory_fs.go:219-262 | a successful one adds the missing ancestors to the flat map and nothing else |
| TreeLaws.NextKeepsWF | memoryshare/memory_fs.go:160-1168 | every call keeps all invariants: links, tree shape, distinct inodes, exact sizes, known ghosts |
| TreeLaws.RunsKeepLinks | memoryshare/memory_fs.go:178-198 | in every state of every run each entry (d, k) to c has c.name = k and c.parent = d, and inodes drawn from nextInode are distinct |
| TreeLaws.RunsStayTrees | memoryshare/memory_fs.go:1031-1061 | as long as no call renames the root, every reachable state is a tree below it |
| TreeLaws.RunsStayTreesIff | memoryshare/memory_fs.go:1018-1063 | for every run from a tree: in all its states no two paths lead to one node if and only if no rename of the root goes through |
| TreeLaws.FileAddedMap | memoryshare/memory_fs.go:160-202 | AddFile adds the file and missing ancestors to the flat map, hides what was below the path, and changes nothing else |
| TreeLaws.MadeDirectory | memoryshare/memory_fs.go:205-216 | AddDirectory adds the directory and its missing ancestors only |
| TreeLaws.MkdirMap | memoryshare/memory_fs.go:658-694 | a successful Mkdir adds exactly one path: its own, or, asked to make the root, a child named like the root below it |
| TreeLaws.UnlinkMap | memoryshare/memory_fs.go:903-934 | Unlink of the node at a path drops exactly the paths under it |
| TreeLaws.UnlinkHarmsIff | memoryshare/memory_fs.go:903-934 | for every well-formed state and handle, Unlink takes away a path that does not lead through the handle's node if and only if the node is displaced |
| TreeLaws.RenameMap | memoryshare/memory_fs.go:1018-1063 | Rename of the node at a path to a directory outside its subtree gives the re-keyed map |
| TreeLaws.RenameHarmsIff | memoryshare/memory_fs.go:980-1063 | the same for Rename, outside the new path and with the old place not under it |
| TreeLaws.StaleUnlinkRemovesTheReplacement | memoryshare/memory_fs.go:918-933 | in every state in which a handle is open on a file that another one replaced, Unlink through it takes away the path of the replacement |
| TreeLaws.StaleRun | memoryshare/memory_fs.go:160-202 | such a state is reached from every new filesystem: AddFile, Open, AddFile |
| FileLaws.AddedFileHolds | memoryshare/memory_fs.go:160-202 | after a successful AddFile the node at the path is a file with just the content, no entries and no attributes; reads from its start return its first bytes; the ancestors made are empty directories; all other nodes keep all but their entries |
| FileLaws.AddedDirectoriesAreEmpty | memoryshare/memory_fs.go:219-262 | AddDirectory makes new directories without content or attributes, and other nodes keep all but their entries |
| FileLaws.MadeDirIsEmpty | memoryshare/memory_fs.go:658-694 | a successful Mkdir makes one directory, with its name and without entries, content or attributes |
| FileLaws.OpenFindsThePath | memoryshare/memory_fs.go:414-422 | Open of a path that is there gives a handle on its node and changes nothing else |
| FileLaws.OpenCreates | memoryshare/memory_fs.go:438-545 | Open of a missing path in normal mode fails without a change, or opens the new, empty file that stands at the path |
| FileLaws.OpenStandsIn | memoryshare/memory_fs.go:446-518 | a blocked or discarded creation opens a new, empty file with inode 999999 that no directory knows, and no other node changes |
| FileLaws.OpenKeepsOtherHandles | memoryshare/memory_fs.go:414-545 | Open touches no other handle |
| FileLaws.CloseForgetsTheHandle | memoryshare/memory_fs.go:548-572 | Close forgets its handle and no other, changes no node, and outside honeypot mode or without a session no ghost |
| FileLaws.RenameRefusedIff | memoryshare/memory_fs.go:1018-1035 | a rename is refused, and changes nothing, if and only if the new parent is missing or something stands at the new path and no flag says to replace it |
| FileLaws.AttributesAreLastSet | memoryshare/memory_fs.go:1135-1168 | over every run an extended attribute of a node is the one last set through a handle on it, or the one it had |
| MemoryFs.MemoryFS.constructor | memoryshare/memory_fs.go:128-157 | a new filesystem is valid, with an empty root and an empty registry |
| MemoryFs.MemoryFS.ResolvePath | memoryshare/memory_fs.go:265-290 | resolvePath computes the flat map |
| MemoryFs.MemoryFS.GetOrCreateDirPath | memoryshare/memory_fs.go:219-262 | the loop over heap nodes makes the directories of MakeDirs, or fails without a change when a component is a file |
| MemoryFs.MemoryFS.AddFile | memoryshare/memory_fs.go:160-202 | takes the AddFile step, and reports success exactly when it can |
| MemoryFs.MemoryFS.AddDirectory | memoryshare/memory_fs.go:205-216 | takes the AddDirectory step |
| MemoryFs.MemoryFS.Mkdir | memoryshare/memory_fs.go:602-695 | panics if and only if the parent is a file; else takes the Mkdir step, with callback refusal and honeypot mode changing nothing |
| MemoryFs.MemoryFS.Open | memoryshare/memory_fs.go:414-545 | takes the Open step: existing node, ghost file, stand-in or new file |
| MemoryFs.MemoryFS.Close | memoryshare/memory_fs.go:548-572 | takes the Close step: in honeypot mode the path is registered, or its access time refreshed |
| MemoryFs.MemoryFS.Read | memoryshare/memory_fs.go:698-723 | for every read, what ReadOf describes: bytes, end of file, an error, or a panic |
| MemoryFs.MemoryFS.Write | memoryshare/memory_fs.go:726-804 | panics if and only if an accepted write to a file in normal mode wraps around; else takes the Write step, and says when it reports the length as written |
| MemoryFs.MemoryFS.Truncate | memoryshare/memory_fs.go:937-977 | takes the Truncate step |
| MemoryFs.MemoryFS.Unlink | memoryshare/memory_fs.go:903-934 | takes the Unlink step |
| MemoryFs.MemoryFS.Rename | memoryshare/memory_fs.go:980-1064 | panics if and only if all checks pass and the target's parent is a file; else takes the Rename step with its checks in order |
| MemoryFs.MemoryFS.Setxattr | memoryshare/memory_fs.go:1135-1168 | takes the Setxattr step |
| MemoryFs.MemoryFS.Cleanup | memoryshare/memory_fs.go:1442-1470 | takes the Sweep step |
| MemoryFs.MemoryNode.WriteAt | memoryshare/memory_fs.go:784-803 | the in-place growth and copy of a write is Written |
| MemoryFs.MemoryNode.TruncateTo | memoryshare/memory_fs.go:952-974 | the in-place cut or growth is Truncated |
| SparseFile.BeyondTheEnd | memoryshare/memory_fs.go:952-974 | nothing old lies beyond the end of the ideal file, so growing never brings old bytes back |
| SparseFile.HistoryIsIdeal | memoryshare/memory_fs.go:784-803 | after any history of writes and truncations the content is the ideal sparse file and its length is the size |
| SparseFile.RunsAreIdeal | memoryshare/memory_fs.go:726-977 | over every run in normal mode, each node's content is the ideal file of the calls that reached it |
| SparseFile.ReadsAreIdeal | memoryshare/memory_fs.go:698-723 | a read returns the ideal file's bytes from its offset, or end of file at or beyond the end |
| GhostSpec.GhostKeyInjective | memoryshare/memory_fs.go:1267-1269 | two pairs of session and path never share a key, whatever the path contains |
| GhostSpec.RemoveKeepsAccounting | memoryshare/memory_fs.go:1417-1439 | removing a ghost keeps both counters equal to the sums they cache |
| GhostSpec.TouchKeepsAccounting | memoryshare/memory_fs.go:1401-1414 | an access changes no counter and no sum |
| GhostSpec.InsertAccounted | memoryshare/memory_fs.go:1375-1390 | from exact counters and no negative size, storing a ghost of any int64 size keeps the counters exact if and only if the new total fits an int64 |
| GhostSpec.InsertExactIff | memoryshare/memory_fs.go:1375-1390 | from exact counters, whatever the sizes, storing a ghost keeps them exact if and only if both new sums fit an int64 |
| GhostSpec.RemoveExactIff | memoryshare/memory_fs.go:1417-1439 | from exact counters, whatever the sizes, a removal keeps them exact if and only if the total left fits an int64 and what is left for the session fits too and is not negative, or, for a session without an entry, is zero |
| GhostRegistry.GhostFiles.RemoveGhostFile | memoryshare/memory_fs.go:1417-1439 | the in-place removal is Remove |
| GhostRegistry.GhostFiles.GetGhostFile | memoryshare/memory_fs.go:1401-1414 | finds the caller's own ghost of the path, refreshed, or changes nothing |
| GhostRegistry.GhostFiles.Oldest | memoryshare/memory_fs.go:1303-1308 | the first entry with the least access time |
| GhostRegistry.GhostFiles.EvictFromSession | memoryshare/memory_fs.go:1298-1327 | for every registry the per-session loop ends and removes, one by one, an oldest ghost of the session as long as its guard holds (SessionLoop); with exact counters that is a minimal least-recently-used prefix |
| GhostRegistry.GhostFiles.EvictGlobally | memoryshare/memory_fs.go:1329-1373 | for every registry the global loop ends and removes, one by one, an oldest ghost as long as its guard holds (GlobalLoop); with exact counters that is a minimal least-recently-used prefix |
| GhostRegistry.GhostFiles.AddGhostFile | memoryshare/memory_fs.go:1273-1398 | for every registry, both loops in order and then the registration, every counter and ghost given by the victims (Performed) |
| GhostRegistry.GhostFiles.SaveGhost | memoryshare/memory_fs.go:557-565 | what Close does in honeypot mode, for every registry: an access time refreshed, or both loops and a registration |
| GhostRegistry.GhostFiles.Cleanup | memoryshare/memory_fs.go:1453-1463 | removes exactly the ghosts older than the expiry, one by one, which gives the counters for every registry, and keeps exact ones exact when no size is negative |
| GhostRegistry.GhostFiles.GetGhostFileStats | memoryshare/memory_fs.go:1473-1514 | totals, per-session counts and memory figures are those of the registry |
| GhostRegistry.SessionVictim | memoryshare/memory_fs.go:1303-1317 | one eviction of the session phase extends the least-recently-used prefix and keeps it minimal |
| GhostRegistry.GlobalVictim | memoryshare/memory_fs.go:1342-1371 | the same for the global phase |
| GhostLaws.RegistrationAccounting | memoryshare/memory_fs.go:1273-1390 | a whole registration of any int64 size keeps the counters equal to the sums if and only if the size fits an int64 with the total left after phase 1 |
| GhostLaws.OneOutcome | memoryshare/memory_fs.go:1273-1390 | for every registry whose access times are distinct, also after an overflow: whatever order the maps are visited in, a registration has one outcome |
| GhostLaws.RegistrationKeepsQuotas | memoryshare/memory_fs.go:1298-1390 | all quotas survive a registration that fits |
| GhostLaws.QuotasIffFits | memoryshare/memory_fs.go:1298-1390 | a registration of a non-negative size keeps all quotas if and only if the size fits an int64 with the total left after phase 1 |
| GhostLaws.RunsStayGood | memoryshare/memory_fs.go:1273-1463 | in every state of every run whose registrations so far fit the counters are exact; each session is within its file quota, and within its byte quota unless it holds one ghost; the total is within the global quota unless one ghost holds it all |
| GhostLaws.RunsExactIffFits | memoryshare/memory_fs.go:1273-1463 | over every run with sizes that are not negative, in all states both counters equal the sums if and only if every registration fits |
| GhostLaws.RunsMeetQuotasIffFits | memoryshare/memory_fs.go:1273-1463 | over every run with sizes that are not negative, all states meet all quotas if and only if every registration fits |
| GhostLaws.ModestRunsStayGood | memoryshare/memory_fs.go:1273-1463 | with sizes and a global limit below 2^62, whatever the order of calls, every registration fits |
| GhostLaws.GhostsPersist | memoryshare/memory_fs.go:1401-1438 | a ghost neither evicted nor expired keeps node, path, session and size |
| GhostLaws.RefreshSetsTheTime | memoryshare/memory_fs.go:1401-1414 | an access sets the time of its ghost and changes no other field, ghost or counter |
| GhostLaws.AccessTimeIsLastUse | memoryshare/memory_fs.go:1401-1414 | over every run the access time of a ghost is the time at which its key was last registered or refreshed |
| GhostLaws.VictimsAreLeastRecentlyUsed | memoryshare/memory_fs.go:1298-1373 | over every run the victims of a registration were used no later than the ghosts it keeps, in the session and then in all |
| GhostLaws.SweepsTheUnused | memoryshare/memory_fs.go:1442-1470 | over every run a sweep removes exactly the ghosts last used more than three minutes before |
| GhostLaws.SessionEvictsWhatItMust | memoryshare/memory_fs.go:1298-1327 | with room for the new ghost in its session phase 1 evicts nothing; if it evicts, then with the last victim kept the session would have its number of files or more than its bytes |
| GhostLaws.GlobalEvictsWhatItMust | memoryshare/memory_fs.go:1329-1373 | the same for phase 2 and the bytes of all sessions |
| GhostLaws.TotalIsSumOfSessions | memoryshare/memory_fs.go:1473-1501 | VirtualMemoryTotal is the sum of SessionVirtualMemory |
| GhostLaws.HugeSizesBreakTheQuota | memoryshare/memory_fs.go:1298-1300 | with sizes near 2^63 the wrapped comparison evicts nothing: a concrete broken quota, for the condition of QuotasIffFits |
| GhostLaws.NegativeSizeIsExact | memoryshare/memory_fs.go:1282-1390 | over every run, the first registration of a negative size, as a file from 2^63 bytes up gives, still leaves both counters equal to the sums |
| GhostLaws.NegativeSizeLosesTheEntry | memoryshare/memory_fs.go:1417-1439 | a run in which exact counters become inexact when an expired ghost of a session with a negative size is removed |
| HoneypotLaws.RunsInterfereNot | memoryshare/memory_fs.go:764-782 | with discardWrites on, no run of the modelled client calls changes anything of a node but its size, which is the running maximum of its start size and every accepted write's end |
| HoneypotLaws.RunsKeepTheTree | memoryshare/memory_fs.go:488-518 | nor does any path come, go or change its node |
| HoneypotLaws.RunsKeepReads | memoryshare/memory_fs.go:698-723 | reads within the original length keep returning the original bytes |
| HoneypotLaws.ReadsPanicIff | memoryshare/memory_fs.go:698-723 | over every honeypot run, a read panics if and only if it starts behind the content of a file and before the largest end of an accepted write |
| HoneypotLaws.NextRegistry | memoryshare/memory_fs.go:414-572 | every filesystem call leaves the registry alone or takes one of the registry's own steps |
| HoneypotLaws.RunsKeepAccounts | memoryshare/memory_fs.go:548-572 | over every run of the filesystem in which every registration so far fits, the counters are exact and the quotas hold |
| HoneypotLaws.RunsExactIffFit | memoryshare/memory_fs.go:548-572 | over every run of the filesystem that closes files below 2^63 bytes only, in all states both counters equal the sums if and only if every Close registers a size that fits |
| HoneypotLaws.ModestRunsKeepAccounts | memoryshare/memory_fs.go:548-572 | with files and a global limit below 2^62 every registration of a run fits |
| HoneypotLaws.RecordedSizeIff | memoryshare/memory_fs.go:557-565 | over every honeypot run, while a ghost is kept its recorded size is its node's if and only if no write accepted since its registration ended beyond the size then |
| HoneypotLaws.ReopenFindsTheSavedNode | memoryshare/memory_fs.go:423-437 | while a ghost is kept, every later non-creating Open of its path in its session opens the node saved by Close |
| HoneypotLaws.ReopenIsPrivate | memoryshare/memory_fs.go:1401-1414 | such an Open returns a node only from a ghost of the same session and path |
| HoneypotLaws.StandInsArePrivate | memoryshare/memory_fs.go:423-518 | over every honeypot run in which the handles on a stand-in node are closed in the sessions that opened them, only the session that made the node opens it |
| HoneypotLaws.AccessTimeIsLastCall | memoryshare/memory_fs.go:423-572 | over every run the access time of a ghost is that of the last Close of its path, or Open that found it, in its session |
| HoneypotLaws.CloseEvictsTheLeastRecentlyUsed | memoryshare/memory_fs.go:548-572 | over every run a Close makes a ghost go only if it was opened or closed no later than any ghost kept, of its session or, if the victim is of another, of any |
| HoneypotLaws.CleanupRemovesTheUnused | memoryshare/memory_fs.go:1442-1470 | over every run a cleanup round removes exactly the ghosts not opened or closed within three minutes |
| Utf16.DecodeOfEncode | internal/utf16le/utf16le.go:32-56 | decoding gives the string back if and only if it does not end in a NUL |
| Utf16.EncodedUnit | internal/utf16le/utf16le.go:24-42 | each code unit is two bytes, the low one first |
| AvPairs.PairsOfEncode | internal/ntlm/ntlm.go:410-418 | parsing undoes encoding, for all values shorter than 65536 bytes |
| AvPairs.EncodeOfPairs | internal/ntlm/ntlm.go:355-377 | encoding undoes parsing: there is one way to read the bytes |
| AvPairs.PairOnTheWire | internal/ntlm/ntlm.go:410-418 | a pair is its number and the length of its value, low bytes first, and the value |
| AvPairs.ParsedIff | internal/ntlm/ntlm.go:340-380 | for every byte string and list: parsing gives the list if and only if the bytes are its encoding and end in four zeros |
| AvPairs.ParseAvPairs | internal/ntlm/ntlm.go:340-380 | ends on every input; accepts exactly the splittable bytes ending in four zeros; maps each id to the slice of its last value |
| AvPairs.ParsedEncode | internal/ntlm/ntlm.go:340-418 | for lists ending in EOL, parseAvPairs reads back the list |
| AvPairs.EncodeTargetInfo | internal/ntlm/ntlm.go:410-418 | the running-offset loop writes the encoding of the list |
| AvPairs.ExtendedPairs | internal/ntlm/ntlm.go:208-242 | encode's output parses to the original pairs and the appended ones |
| AvPairs.ExtendedValue | internal/ntlm/ntlm.go:208-242 | and gives each id the appended value, else the original one, flags with the MIC bit |
| AvPairs.SetMicBits | internal/ntlm/ntlm.go:211-212 | exactly bit 1 of the flags is set |
| AvPairs.KeepsIffEol | internal/ntlm/ntlm.go:211-242 | the original pairs survive encode if and only if the information ends in EOL |
| AvPairs.ZerosAreNotATerminator | internal/ntlm/ntlm.go:349-353 | information that passes parseAvPairs and loses a value in encode |
| AvPairs.TargetInfoEncoder.SizeIsLength | internal/ntlm/ntlm.go:196-206 | size is the number of bytes encode writes |
| AvPairs.TargetInfoEncoder.Encode | internal/ntlm/ntlm.go:208-242 | writes those bytes at the offset, nothing else, and sets the MIC bit in place in the message |
| NtlmSession.Mac | internal/ntlm/ntlm.go:244-288 | the in-place tag construction gives the tag of either format, the advanced cipher and the next sequence number mod 2^32 |
| NtlmSession.XorStreamTwice | internal/ntlm/client.go:266-276 | the same stream position decrypts what it encrypted |
| NtlmSession.Session.Sum | internal/ntlm/session.go:64-73 | is SumOf: the sender's line moves on |
| NtlmSession.Session.CheckSum | internal/ntlm/session.go:75-95 | is CheckOf: the receiver's line moves on, also on a refusal |
| NtlmSession.Session.Seal | internal/ntlm/session.go:97-120 | is SealOf, appended to dst |
| NtlmSession.Session.Unseal | internal/ntlm/session.go:122-162 | is UnsealOf, appended to dst |
| NtlmSession.Lockstep | internal/ntlm/session.go:64-95 | however sends and in-order deliveries of both directions interleave, every signature is accepted; idle directions have equal cipher states and sequence numbers |
| NtlmSession.AcceptsOnlyThePeersSum | internal/ntlm/session.go:75-95 | after any traffic, in a direction with nothing under way, the receiver accepts a signature for any message if and only if it is the one the peer would make of it then |
| NtlmSession.NoReplay | internal/ntlm/ntlm.go:264-285 | in extended mode a signature is refused at every other sequence number |
| NtlmSession.UnsealOfSeal | internal/ntlm/session.go:97-162 | Unseal undoes Seal if and only if signing was negotiated or the message is all zeros |
| NtlmLaws.XorByteBits | internal/ntlm/ntlm.go:256-283 | encryption flips exactly the bits that the key stream has set |
| NtlmLaws.ExtendedSignature | internal/ntlm/ntlm.go:268-288 | with extended session security the signature is 1, the first 8 bytes of the keyed hash of sequence number and message, encrypted if keys were exchanged, and the sequence number; the sender's own cipher moves on by 8 or 0 bytes |
| NtlmLaws.PlainSignature | internal/ntlm/ntlm.go:246-267 | without it: 1, zeros, the encrypted checksum of the message and the encrypted sequence number; the cipher moves on by 12 bytes |
| NtlmLaws.NoSignature | internal/ntlm/session.go:64-95 | without signing there is no signature and nothing moves on, and unsealing checks 16 zeros |
| NtlmLaws.CheckMovesOn | internal/ntlm/session.go:75-95 | whatever CheckSum answers, the peer's cipher moves on as for the sender; a refusal answers sequence number 0 |
| NtlmLaws.SignatureCovers | internal/ntlm/ntlm.go:244-288 | in the same state a signature is accepted for another message if and only if the truncated keyed hashes, or without extended security the checksums, are equal |
| NtlmLaws.AlteredMessageIsRefused | internal/ntlm/session.go:122-162 | a sealed message whose body was altered is opened if and only if the truncated hashes collide |
| NtlmSpec.FieldRead | internal/ntlm/server.go:187-194 | a field that was written is read back, cut to its length modulo 2^16 |
| NtlmAgreement.ChallengeFields | internal/ntlm/server.go:93-153 | every field of a challenge stands at its place, the target information also when it overlaps the target name |
| NtlmAgreement.ChallengeParses | internal/ntlm/client.go:71-117 | the client accepts the challenge and reads the server's list back |
| NtlmAgreement.AuthReads | internal/ntlm/server.go:174-222 | the server reads back every field the client wrote |
| NtlmAgreement.InfoHasMic | internal/ntlm/server.go:276-277 | the information in a response always says that there is a MIC |
| NtlmAgreement.Agreement | internal/ntlm/server.go:224-312 | for every account the server holds, response and MIC check pass and both sides hold equal exported keys, signing keys and cipher states |
| NtlmAgreement.AgreementIff | internal/ntlm/server.go:224-228 | with that account only, the handshake succeeds if and only if the user name is not empty, does not end in a NUL and fits 16 bits |
| NtlmAgreement.AgreedTraffic | internal/ntlm/session.go:64-95 | after every such handshake, however sends and in-order deliveries interleave, every signature is accepted |
| NtlmLaws.ServerDecides | internal/ntlm/server.go:224-328 | for every message whose fields can be read: with a name and a response it is let in if and only if the user exists or guests are allowed, the response is the keyed hash of the password, user, domain and challenge with the protocol's fixed bytes, the key fits, and the MIC, if there is one, is right; it panics exactly as listed; the session is the user's, or a guest's for a message without |
| NtlmLaws.OnlyAuthenticateMessages | internal/ntlm/server.go:175-222 | no other message is let in, and what is no authenticate message is refused |
| NtlmLaws.FieldIff | internal/ntlm/server.go:187-194 | a field is read if and only if its length is within its maximum and its uint32 end within the message, and panics if that end wrapped below its start |
| NtlmLaws.ClientGoesOnIff | internal/ntlm/client.go:71-117 | the client goes on with a challenge if and only if type, flags, name and target information are all there |
| NtlmLaws.ClientProves | internal/ntlm/client.go:155-276 | what the client sends is the keyed hash of its password or hash, user, domain and challenge, with its own challenge, the server's time and its information, and a key that decrypts to the one it exports |
| NtlmLaws.WithoutCredentials | internal/ntlm/client.go:155-200 | a client without credentials sends a message that is taken for a guest, or refused where guests are not allowed |
| NtlmLaws.NegotiateBytes | internal/ntlm/client.go:32-55 | the negotiate message, byte by byte |
| NtlmLaws.ServerChallengesIff | internal/ntlm/server.go:66-81 | the server answers negotiate messages only; its flags are those both sides have, and bit 23 |
| NtlmLaws.TargetInfoValues | internal/ntlm/server.go:83-104 | each server name stands under its own number if it is set, with the time and nothing else but the end |
| NtlmLaws.AnswerValues | internal/ntlm/ntlm.go:208-242 | the client's information has its target name, 16 zero bytes of channel bindings, the MIC bit, and otherwise the server's values |
| NtlmLaws.AsciiCodes | internal/ntlm/ntlm.go:290-338 | the constants are hashed as their character codes |
| NtlmLaws.SessionKeys | internal/ntlm/ntlm.go:290-338 | the signing and sealing keys of each direction for every combination of flags |
| NtlmSpec.OnlyMicChanges | internal/ntlm/server.go:276-295 | whatever the verdict, at most the MIC field of the message changes, and that to zeros; an accepted message that says it has a MIC has lost it |
| NtlmHandshake.Client.Negotiate | internal/ntlm/client.go:32-55 | builds the negotiate message |
| NtlmHandshake.Client.Authenticate | internal/ntlm/client.go:57-314 | refuses what the checks refuse; else the message in the buffer is ClientMessage and the session holds the client's keys |
| NtlmHandshake.Server.Challenge | internal/ntlm/server.go:51-158 | builds the challenge message with the overlapping writes of the source |
| NtlmHandshake.Server.Authenticate | internal/ntlm/server.go:160-328 | decides as Verify does, and leaves the message as AfterVerify says |
| NtlmHandshake.Handshake | internal/ntlm/server.go:51-328 | the four calls in a row succeed and leave both objects with agreeing sessions |
| ShareEnum.IdIs | internal/smb2/dcerpc.go:410-416 | referent ids are consecutive modulo 2^32 |
| ShareEnum.MakeNetShareEnumAllResponse | internal/smb2/dcerpc.go:429-456 | the loop builds one entry per share |
| ShareEnum.EncodePacket | internal/smb2/dcerpc.go:285-308 | the nested encoders write exactly the first Size() bytes and draw 3 + 2n referent ids |
| ShareEnum.EncodeInfo | internal/smb2/dcerpc.go:344-371 | referents first, then all strings, at running offsets |
| ShareEnum.PacketHead | internal/smb2/dcerpc.go:285-416 | every field of the answer for a list of shares, outside array and strings, at its place |
| ShareEnum.PacketArray | internal/smb2/dcerpc.go:352-371 | each share has two consecutive referent ids and type 0 at its place in the array |
| ShareEnum.PacketText | internal/smb2/dcerpc.go:333-342 | behind the array each share has its name and an empty comment, each with the UTF-8 length with NUL as both counts, offset 0, and its text with NUL, padded to four bytes |
| ShareEnum.IsIncomplete | internal/msrpc/msrpc.go:278-348 | for every byte string, true if and only if some string or the array is not all there |
| ShareEnum.AcceptedIff | internal/msrpc/msrpc.go:217-232 | the client accepts packets of at least 24 bytes with version 5.0 and type 2 only |
| ShareEnum.CompleteIff | internal/msrpc/msrpc.go:278-348 | for every byte string: complete if and only if the head, a level of 0 or 1, the array, and from there on one or two strings for each share are there, each where the one before ends |
| ShareEnum.NamesThere | internal/msrpc/msrpc.go:354-396 | each name listed is the text at the offset of its string in such a layout |
| ShareEnum.ShareNameList | internal/msrpc/msrpc.go:354-396 | on every string that passes IsIncomplete, at both levels, all slices are in range and there is one name per share |
| ShareEnum.EntryOf | internal/smb2/dcerpc.go:333-342 | an encoded string is read back with the offset behind it |
| ShareEnum.RoundTrip | internal/msrpc/msrpc.go:354-396 | for every list of shares the encoded answer passes both checks and lists one name per share in order |
| ShareEnum.RoundTripIff | internal/smb2/dcerpc.go:418-427 | the names are the server's if and only if each has as many UTF-8 bytes as UTF-16 units, which for valid UTF-8 means that all are ASCII |
| ShareEnum.Enumerate | internal/smb2/dcerpc.go:285-456 | build, encode, check and list in a row give those names |
| Compound.MarkedFields | server/compound.go:33-39 | marking a response changes the related bit and NextCommand and nothing else |
| Compound.SplitChain | server/conn.go:267-303 | for every message the split loop ends, and the packets handed on and the ending, a run-time panic included, are those of Receive |
| Compound.ReceivedInOrder | server/conn.go:263-303 | for every message the packets handed on are its front, in order, and all of it when the chain ends |
| Compound.PanicsIff | server/conn.go:263-303 | for every message: the receiver panics if and only if what is left behind some packet panics by itself, or the chain goes on to its last packet and all packets are marked related; it refuses if and only if what is left is invalid |
| Compound.BreaksIff | internal/smb2/packet.go:65-135 | a rest that is not SMB1 panics by itself if and only if it has fewer than four bytes |
| Compound.ValidIff | internal/smb2/packet.go:65-139 | which packets pass the header check, byte by byte |
| Compound.RelatedHeaderPanics | server/conn.go:277-279 | one header marked related that does not chain panics: compCtx is nil |
| Compound.ShortRestPanics | internal/smb2/packet.go:65-68 | a packet with one to three bytes behind it panics |
| Compound.RoundTrip | server/compound.go:29-44 | for every list of plain responses: the receiver splits the encoded chain into the padded responses in order, related from the second on, only the last with NextCommand zero, if and only if the first is not marked related; else it panics at the last |
| Compound.EndsSeen | internal/smb2/packet.go:106-112 | the receiver sees the first and the last member of a chain, and no others, as such |
| Compound.SizeIsLength | server/compound.go:21-27 | Size is the length of the chain |
| Compound.CompoundContext.AddResponse | server/compound.go:17-19 | appends the packet |
| Compound.CompoundContext.BufferSize | server/compound.go:21-27 | the loop returns the Size of the packets added so far, the length Encode fills |
| Compound.CompoundContext.Encode | server/compound.go:29-44 | marks the packets in place and fills the buffer with the chain |
| CompoundProtocol.Protocol | server/conn.go:466-527 | with good ids and any schedule: responses in request order, one buffer, only after the last member, failures propagated without dispatch |
| CompoundProtocol.ClientGetsTheResponses | server/compound.go:29-44 | with good ids, the one buffer a finished run writes, encoded as a chain, is received as one response for each member, in request order, unless the first response is marked related |
| CompoundProtocol.RunsPropagate | server/server.go:274-280 | after a failed member every later one has its status and was not dispatched, whatever the ids |
| CompoundProtocol.RunsReport | server/conn.go:485-495 | in every run, whatever the ids: up to the first failure each response has its handler's status, and every later one has the status of that failure and was not dispatched |
| CompoundProtocol.FinishedIff | server/conn.go:38-68 | some step is possible until all members are handed over and the dispatcher waits, or the dispatcher is stuck with the mutex and the receiver needs that or cannot hand over |
| CompoundProtocol.NoDeadlock | server/conn.go:38-68 | without such neighbours, whatever else the ids, every schedule that cannot go on has answered every member, in request order |
| CompoundProtocol.DeadlockIffTwins | server/conn.go:45-68 | some schedule leaves the dispatcher waiting with its own mutex held if and only if two neighbours have the same id |
| CompoundProtocol.StuckForGood | server/conn.go:45-68 | once stuck, the dispatcher stays stuck and nothing is answered or written any more |
| CompoundProtocol.TwinsBlockTheReceiver | server/conn.go:38-68 | if another member follows two neighbours with one id, some schedule ends with it never registered |
| CompoundProtocol.RunsEnd | server/conn.go:260-304 | every schedule ends after at most five steps a member |
| CompoundProtocol.ZeroIdWritesEarly | server/conn.go:496-500 | a zero id before the last member makes a short buffer go out |
| CompoundProtocol.EqualIdsLoseAMember | server/conn.go:38-68 | two neighbours with one id lose a member under some schedule |
| CompoundProtocol.CorrectIffGoodIds | server/conn.go:260-527 | all schedules answer a chain correctly if and only if no member but the last has id zero or its successor's id |
| SecurityDescriptor.EncodeSid | server/acl.go:115-122 | writes the SID's bytes in place |
| SecurityDescriptor.EncodeAcl | server/acl.go:152-162 | writes the ACL's bytes in place, entries at running offsets |
| SecurityDescriptor.Encode | server/acl.go:46-82 | writes exactly Size() bytes: header, offsets and the parts that are present |
| SecurityDescriptor.DescriptorReads | server/acl.go:183-235 | each offset is zero or leads to its part, the parts follow one another, and the last ends the bytes |
| SecurityDescriptor.SidReads | internal/smb2/dtyp.go:129-150 | the SID decoder reads back count, authority and sub-authorities |
| SecurityDescriptor.SubAuthority | internal/smb2/dtyp.go:141-150 | the loop returns the sub-authorities in order |
| SecurityDescriptor.IdentifierAuthority | internal/smb2/dtyp.go:133-139 | the loop computes the big-endian number of the six bytes |
| SecurityDescriptor.MaskGrants | server/acl.go:165-179 | the access mask grants execution, writing and reading exactly as the permission bits do |
| SecurityDescriptor.ModeBits | vfs/attributes.go:234-238 | what is stored are the original permission bits with 0600 added and the type bits dropped |
| SecurityDescriptor.SetSecInfo | server/file_tree.go:1706-1744 | for every descriptor, decides as the walk over its entries does; a failing SetAttr is answered with access denied |
| SecurityDescriptor.QueryInfoSec | server/file_tree.go:1502-1551 | builds and encodes the descriptor for the requested subset |
| SecurityDescriptor.SentBytes | server/file_tree.go:1502-1551 | the bytes sent for every uid, gid, mode, type and subset: header and offsets, owner S-1-5-88-1-uid, group S-1-5-88-2-gid, and the four entries of the DACL with their types, sizes, masks and SIDs |
| SecurityDescriptor.MaskTable | server/acl.go:165-179 | the access mask of each of the eight permission combinations |
| SecurityDescriptor.WalkBuilt | server/file_tree.go:1717-1738 | the walk skips owner, group and everyone and stops at the mode SID |
| SecurityDescriptor.SetSecDecides | server/file_tree.go:1706-1744 | for every encoded descriptor, whatever its entries: without a DACL not supported, else the first mode SID gives the mode stored, and without one access is denied |
| SecurityDescriptor.StoredBits | vfs/attributes.go:233-238 | what is stored of any mode: its nine permission bits with reading and writing by the owner added |
| SecurityDescriptor.RoundTrip | server/file_tree.go:1706-1738 | for every uid, gid, mode, type and subset: without the DACL a refusal; with it stored mode bits, or access denied if they cannot be set |
| SecurityDescriptor.WriteBack | server/file_tree.go:1502-1744 | querying and setting in a row have that effect |

## Left out

- MemoryFs.MemoryFS.Write: allocating the content never fails; Go panics or runs out of memory for very large ends.
- MemoryFs.MemoryFS.Mkdir: nothing is said about the state behind a panic, here and in the other calls.
- MemoryFs.MemoryFS.Open: handles are parameters, so nothing is said about random handles colliding; wrap-around of nextInode is not modelled.
- HoneypotLaws.RunsInterfereNot: Symlink, SetAttr and Removexattr, which discardWrites does not guard (memory_fs.go:353-389, 1067-1082, 1171-1184), are not among the modelled calls; they do change a node in this mode.
- NtlmSession.Session.Seal: the zeros sent without signing stand for whatever the spare capacity of dst holds.
- ShareEnum.RoundTripIff: a Go string with invalid UTF-8 is not modelled; it can have as many bytes as units and still not come back as it was.
- NtlmSpec.GuestSession: a guest has no keys; its ciphers are modelled as ones of an empty key where the source leaves nil handles, on which Sum panics if SIGN was negotiated.
- NtlmAgreement.Agreement: domain, SPN and target information must fit the 16-bit length fields and the messages 2^32 bytes; what a truncated domain hashes to is not known for uninterpreted hash functions.
- ShareEnum.RoundTrip: the uint32 counts must not wrap (fewer than 2^32 shares, names of fewer than 2^31 - 1 bytes).
- Compound.SplitChain: the loop is given the bytes of one message, so the checks that tryDecrypt makes of the first packet of a session, and verifying signatures, are not modelled; pkt[off:] has no capacity beyond its length.
- Compound.RoundTrip: the aligned length of a response must fit the 32-bit NextCommand.
- CompoundProtocol.Protocol: one chain of tree commands of existing trees, each answered once; other traffic on the connection, Echo (which never joins a chain), Cancel and transport errors are not modelled.
- Locks, goroutine scheduling outside the compound protocol, sync.Map internals and the goroutine-keyed operation context: each call is one atomic step with the session as a parameter.
- path.Clean and splitting at slashes are one function on which nothing is assumed; wildcard matching, the conversion between UTF-8 and UTF-16, and upper-casing likewise.
- Times, modes, owners, SetAttr, ReadDir, OpenDir, Lookup, Link, Symlink and the other extended-attribute calls of the filesystem: they would add only easy members, and Symlink re-enters its own lock.
- Switching discardWrites while files are open.
- Seal and Unseal with the SEAL flag, which use a fixed handle regardless of side.
- Slicing beyond the length but within the capacity of a Go slice, which the model treats as a panic.
- Signatures of responses in a chain are computed before Encode marks the headers; signing and encryption of packets are not modelled. What happens to SMB1 negotiate packets behind the split loop, credits, sequence windows and preauthentication hashes neither.
- The level 0 encoder (the library has none), the other RPC calls, bind packets and fragment lengths above 65535.
- Sid.Encode of internal/smb2/dtyp.go, which shifts the authority by one byte too many: the encoder of server/acl.go is the one modelled.
- Real cryptography, ASN.1 and SPNEGO, sockets, logging, configuration and the statistics server.
