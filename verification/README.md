# cricker-os: file service, crash recovery, revocation, memory and devices

A Dafny model of the parts of cricker-os whose correctness is a matter of state over time, with proofs of
what they promise. Five clusters:

- **The capability file service.** One server object: a mounted filesystem and a table of open handles.
  Every verb is a method of `FileServer.Server`, proved to be one step (`Verbs.Step`) of a state machine over
  the engine's node tree, its usage table and its release list, and to mean what `Answers` says of names,
  bytes, attributes and handles. On that machine are proved:
  the invariant every request keeps (and exactly which requests break it), that the namespace is a tree,
  that unlinking does not revoke open files, that handles confine their holders to a subtree, that names,
  file contents and extended attributes after any run are what the accepted requests say, and exactly
  which requests are accepted and with which error each other one is refused.
- **The disk below it.** The chunking of byte-addressed calls into block transfers, the model of device
  failure (`crash.rs`), and on top of it the header-ring commit protocol: crash atomicity for every cut, and
  for every torn write given a hash that sees torn headers, with the exact condition on a torn header.
- **The mapping database for revocation.** The linked log pages the kernel keeps, proved to represent a set
  of records; revocation complete and terminating over every history; the bound on bought log pages.
- **One NVMe queue pair** as a two-party step system, with any interleaving of driver and controller.
- **Boot-time placement**: the frame bitmap and allocator bootstrap, PCI BAR placement, the kernel page pool.

Modules, in dependency order: `Basics`; `Engine`, `AttrCodec`, `AttrStore`, `Rights`, `Listing`, `Verbs`
(the file service as functions); `Namespace`, `Store`, `Visible`, `ServerInvariant`, `ServerSteps`,
`TreeShape`, `ServerRuns`, `Confinement`, `Attributes`, `NameTable`, `Acceptance`, `Refusals`, `Answers`, `Witnesses`
(its theorems); `FileServer` (the object, in `Server.dfy`) and `Enumeration`; `BlockDisk`, `Crash`,
`CommitRing`; `Revocation`, `RevocationRuns`, `MappingLog`; `Nvme`; `Memory`; `Pci`; `Kmem`.

Every lemma carries `{:induction false}`: its body is its proof.

How the file service is modelled:

- The engine is the vendored RedoxFS transaction layer reduced to finite maps. Which free node id a creation
  receives is the `hint` in the request, so a theorem over all requests covers every choice the engine can
  make, reuse of a freed id included. An id that is not free is answered `ENOSPC`.
- A run is a sequence of requests. `Permitted` says that a request removes no directory that a live handle
  names; `StepKeepsInvIff` shows that this is exactly what the invariant needs.
- `Inv` is: the node graph is a tree with its books in order, the attribute store is well formed, every
  handle names a live visible node of its kind, slot 0 is the root with every right, and the engine's usage
  count of every node is the number of file handles naming it.

Where the code and its documentation disagree, the model follows the code:

- The comment on `rmdir` (fs_server/src/lib.rs:512-521) says that a handle on a removed directory is
  answered `ENOENT`. Once the engine hands the freed id out again the handle reaches the new directory.
  `Witnesses.StaleHandleReachesAnotherDirectory` is such a run; `ServerSteps.StepKeepsInvIff` is the exact
  condition.
- An attribute set through a handle on a file that has lost its last name outlives the file.
  `Witnesses.AttributeLeaks` is such a run; `Attributes.AttrsNamedStep` is the exact condition.
- `read_dir` answers 0 bytes at the end of a listing and also when the next record does not fit, so a client
  that stops at 0 bytes sees the whole directory exactly when every record fits (`Enumeration.ListAll`).
- `revoke_region` takes a tombstone (page 0) for a victim when the range starts at 0, and then does not end
  (`RevocationRuns.TombstoneAtZero`, `RevocationRuns.EndsIff`).
- A timed-out NVMe command stays with the controller, and its late answer arrives in place of the next
  command's, where the driver's assertion on the command id fires (`Nvme.GiveUpIsUnsafe`, `Nvme.SafeIff`).
- `mark_free` rounds outward, so the half frame at a ragged end of RAM is handed out
  (`Memory.RaggedBoot`, `Memory.FreeIsRamIff`).
- A 32-bit BAR placed above 4 GiB decodes to another address (`Pci.HighWindow`, `Pci.PlacedDecodes`).
- With the ECAM at address 0 the PCI windows are cached on every call and the cursor goes back to the start
  (`Pci.CachedTwice`, `Pci.BarWindow.HostBridgePresent`).

## Model

| member | source | states |
|---|---|---|
| FileServer.Server.Install | fs_server/src/lib.rs:727-735 | The minted handle is the lowest free slot, a freed one before the table grows, and never slot 0; it names the entry, and every other slot is as it was |
| FileServer.Server.OpenFileAt | fs_server/src/lib.rs:145-163 | From a valid server: a handle is minted exactly when the directory handle carries READ or WRITE and a visible file has that name; it is the lowest free slot, names that file with no more than those rights, and changes no name or byte; refused, nothing changes |
| FileServer.Server.OpenDirAt | fs_server/src/lib.rs:177-184 | From a valid server: a handle is minted exactly when the parent carries DESCEND and every right asked for and a visible directory has that name; it has exactly those rights, and the filesystem is untouched |
| FileServer.Server.MakeDirAt | fs_server/src/lib.rs:193-215 | From a valid server: succeeds exactly with CREATE, DESCEND and the rights asked for, under a free name of at most 252 bytes that is no `.`, `..` or store name and holds no slash, backslash, colon or NUL; then one directory has one new name, for a new directory, and no byte, attribute or other name changes; refused, it answers the error of `Refusals.Refusal` and nothing changes |
| FileServer.Server.CreateFileAt | fs_server/src/lib.rs:314-335 | From a valid server: succeeds exactly with CREATE under such a free name; then one directory has one new name, for a new empty file that the minted handle names, and nothing else changes; refused, it answers the error of `Refusals.Refusal` and nothing changes |
| FileServer.Server.ReadAt | fs_server/src/lib.rs:272-275 | From a valid server: answers exactly with READ on a file handle, and then the file's bytes from the offset on, as many as there are and were asked for |
| FileServer.Server.WriteAt | fs_server/src/lib.rs:283-288 | From a valid server: accepted exactly with WRITE on a file handle; the file then has its old bytes with the data laid over them, every byte is reported, and no other file, name or attribute changes |
| FileServer.Server.TruncateAt | fs_server/src/lib.rs:352-359 | From a valid server: accepted exactly with WRITE on a file handle; the file is then cut or zero-extended to the size, and nothing else changes |
| FileServer.Server.RenameAt | fs_server/src/lib.rs:396-443 | From a valid server: accepted exactly when authorized and acceptable, and else refused with the error of `Refusals.Refusal`, a broken name of either kind first; then, if permitted, exactly one name has moved, what it replaced has no attributes, and no byte, handle or other attribute has changed |
| FileServer.Server.RemoveAt | fs_server/src/lib.rs:471-542 | From a valid server: accepted exactly with REMOVE on a visible file (unlink) or a visible empty directory (rmdir); then, if permitted, that name and the node's attributes are gone, the node exactly if no file handle holds it, and nothing else has changed |
| FileServer.Server.ReadDirAt | fs_server/src/lib.rs:231-264 | From a valid server: answers exactly with ENUMERATE on a directory handle, and then whole records of the visible entries in byte order from the cursor on, as many as fit the buffer: the next one does not |
| FileServer.Server.GetAttr | fs_server/src/lib.rs:562-576 | From a valid server: answers exactly with READ, a valid name, an attribute of that name and room for it, and then that attribute in full |
| FileServer.Server.SetAttr | fs_server/src/lib.rs:590-612 | Accepted exactly with WRITE and an attribute the store can take; the node's list is then the old one with the attribute put, and nothing else changes; the buffer sized for the old blob and one record never runs out |
| FileServer.Server.ListAttr | fs_server/src/lib.rs:621-625 | From a valid server: answers exactly with READ, and then the first names of the node's attributes in stored order, which with a length byte each fit the room: all of them, or one more would not fit |
| FileServer.Server.RemoveAttr | fs_server/src/lib.rs:630-643 | From a valid server: accepted exactly with WRITE and an attribute of that name; the node's list is then the old one without it, and nothing else changes |
| FileServer.Server.CloseAt | fs_server/src/lib.rs:662-672 | From a valid server: accepted exactly for a live slot other than 0, which is then free; names, bytes and attributes stay, and a file goes exactly if it has no name and this was its last handle |
| FileServer.Server.Serve | fs_server/src/lib.rs:145-672 | Any request does exactly what the step function says, and leaves the invariant standing if and only if it is permitted; a request that is not accepted is refused with the error of the table |
| Refusals.BrokenIsInvalid | fs_server/src/lib.rs:834-847 | A request with an empty name, `.`, `..`, the store's name, or a name holding a slash, backslash, colon or NUL changes nothing and is answered EINVAL, in any state; an accepted request has no such name |
| Refusals.RefusedAs | fs_server/src/lib.rs:145-672 | Every request of every verb is answered with exactly the error the table gives for the first thing wrong (name, handle, kind of handle, right, missing or existing entry, kind of entry, non-empty directory, limits of 252, 255, 3072, 16 and 2^31-1, no free id), and is accepted if the table gives none |
| FileServer.FillNames | crates/fs_proto/src/lib.rs:2079-2088 | The loop yields the first names of the list: with a length byte each they fit the room, and it has come to the end, to an invalid name, or to one that does not fit |
| Answers.OpenFileMeans | fs_server/src/lib.rs:145-163 | In every valid state the open step answers, hands out and leaves alone what the row of OpenFileAt says |
| Answers.OpenDirMeans | fs_server/src/lib.rs:177-184 | The same of open-directory |
| Answers.MakeDirMeans | fs_server/src/lib.rs:193-215 | The same of make-directory |
| Answers.CreateFileMeans | fs_server/src/lib.rs:314-335 | The same of create |
| Answers.ReadMeans | fs_server/src/lib.rs:272-275 | The same of read |
| Answers.WriteMeans | fs_server/src/lib.rs:283-288 | The same of write |
| Answers.TruncateMeans | fs_server/src/lib.rs:352-359 | The same of truncate |
| Answers.RenameMeans | fs_server/src/lib.rs:396-443 | The same of rename |
| Answers.RemoveMeans | fs_server/src/lib.rs:471-542 | The same of unlink and rmdir |
| Answers.GetMeans | fs_server/src/lib.rs:562-576 | The same of get_xattr |
| Answers.SetMeans | fs_server/src/lib.rs:590-612 | The same of set_xattr |
| Answers.RemoveAttrMeans | fs_server/src/lib.rs:630-643 | The same of remove_xattr |
| Answers.CloseMeans | fs_server/src/lib.rs:662-672 | The same of close |
| ServerSteps.StepKeepsInvIff | fs_server/src/lib.rs:512-521 | A step keeps the server's invariant if and only if it removes no directory that a live handle names |
| ServerSteps.StepEffect | fs_server/src/lib.rs:145-672 | Every permitted request keeps the invariant, changes visible nodes only where its own handles point, takes a name only from the node it removes or replaces, and changes the attributes of no other node |
| ServerSteps.OpenFileKeeps | fs_server/src/lib.rs:145-163 | Opening a file keeps the invariant, its usage count included, and touches nothing visible |
| ServerSteps.OpenDirKeeps | fs_server/src/lib.rs:790-806 | Opening a directory keeps the invariant and touches nothing visible |
| ServerSteps.MakeDirKeeps | fs_server/src/lib.rs:193-215 | Making a directory keeps the invariant and touches only its parent |
| ServerSteps.CreateFileKeeps | fs_server/src/lib.rs:314-335 | Creating a file keeps the invariant and touches only its parent |
| ServerSteps.WriteKeeps | fs_server/src/lib.rs:283-288 | A write keeps the invariant and touches only its file |
| ServerSteps.TruncateKeeps | fs_server/src/lib.rs:352-359 | A truncation keeps the invariant and touches only its file |
| ServerSteps.SetKeeps | fs_server/src/lib.rs:590-612 | Setting an attribute keeps the invariant, touches nothing visible, and makes the node's list exactly the old one with that attribute put |
| ServerSteps.RemoveAttrKeeps | fs_server/src/lib.rs:630-643 | Removing an attribute keeps the invariant, touches nothing visible, and makes the node's list exactly the old one without it |
| ServerSteps.CloseKeeps | fs_server/src/lib.rs:662-672 | A close keeps the invariant: usage counts follow the table, and a nameless file goes with its last handle |
| ServerSteps.CloseCounts | fs_server/src/lib.rs:662-672 | Closing a file handle always succeeds at the engine and lowers the count of its node and of no other |
| ServerSteps.RemovedDirGoes | fs_server/src/lib.rs:522-542 | The directory an rmdir or a rename-over removes is gone afterwards, and the handle table is as it was |
| ServerInvariant.RemoveKeeps | fs_server/src/lib.rs:471-542 | A removal keeps the invariant, touches only the directory named, and leaves the removed node without attributes |
| ServerInvariant.RenameKeeps | fs_server/src/lib.rs:396-443 | A rename keeps the invariant, touches only the two directories, and leaves a replaced node without attributes |
| ServerInvariant.RenameSplit | fs_server/src/lib.rs:410-442 | What a successful rename computes: nothing when both names are the same node, else the engine's rename followed by the purge of exactly the replaced node |
| ServerInvariant.CountPositive | fs_server/src/lib.rs:455-464 | A node counts as open exactly when some file entry of the table names it |
| Namespace.CreateKeepsOk | vendor/redoxfs/src/transaction.rs:847-877 | A creation keeps the node graph a tree and the release and usage books in order |
| Namespace.RemoveKeepsOk | vendor/redoxfs/src/transaction.rs:1080-1197 | A removal keeps the graph a tree: the node is freed, or queued while it is in use |
| Namespace.RenameForm | vendor/redoxfs/src/transaction.rs:1445-1482 | The engine's rename, which links and unlinks, is one move of one name after the destination is cleared |
| Namespace.RenameKeepsOk | vendor/redoxfs/src/transaction.rs:1445-1482 | A rename keeps the graph a tree because a directory moves only within its parent |
| Namespace.RenameNodeIff | vendor/redoxfs/src/transaction.rs:1445-1528 | The engine renames if and only if the new name fits and whatever it replaces can be removed |
| Namespace.CloseForm | vendor/redoxfs/src/transaction.rs:1214-1305 | A close frees a node exactly when it is queued and this was its last use |
| Namespace.CloseKeepsOk | vendor/redoxfs/src/transaction.rs:1214-1305 | A close succeeds and keeps the graph a tree with its books in order |
| Namespace.TreeAfterMove | fs_server/src/lib.rs:396-443 | Moving one name keeps every directory ranked below its parent without walking any ancestry |
| Engine.Resized | vendor/redoxfs/src/transaction.rs:1862-1880 | Truncation keeps the common prefix and extends with zeros |
| Engine.Overlaid | vendor/redoxfs/src/transaction.rs:2028-2048 | A write replaces exactly its own bytes, keeps the tail, and fills a gap with zeros |
| TreeShape.NamespaceIsTree | fs_server/src/lib.rs:193-215 | Every live directory but the root has exactly one name, in one live directory, and exactly one chain of entries from the root; the root has none |
| TreeShape.OneChain | fs_server/src/lib.rs:396-443 | No node is reached from the root by two different chains, at any depth |
| TreeShape.NoCycles | fs_server/src/lib.rs:396-443 | No directory is below itself |
| TreeShape.RootReaches | fs_server/src/lib.rs:193-215 | Every live directory is reached from the root |
| ServerRuns.RunKeepsInv | fs_server/src/lib.rs:145-672 | Every state a permitted run reaches satisfies the invariant |
| ServerRuns.InitialOk | fs_server/src/lib.rs:114-125 | A server just bound to an image nothing has open satisfies the invariant |
| ServerRuns.TreeAtEveryState | fs_server/src/lib.rs:193-542 | In every state reachable by a permitted run the namespace is a tree |
| ServerRuns.LiveIff | fs_server/src/lib.rs:455-464 | A node is live if and only if it is the root, or named, or held by a file handle: it is freed exactly when both reach zero |
| ServerRuns.SlotKept | fs_server/src/lib.rs:727-735 | No request but its own close changes a live slot of the handle table |
| ServerRuns.FailedIsSame | fs_server/src/lib.rs:145-672 | A refused request changes nothing |
| ServerRuns.StepKeepsData | fs_server/src/lib.rs:272-359 | A request changes the bytes of a live file only as an accepted write or truncation of that file |
| ServerRuns.UnlinkIsNotRevoke | fs_server/src/lib.rs:455-492 | Through any permitted run without its own close, a file handle names the same live file, whose bytes are the accepted writes and truncations of it, in order |
| ServerRuns.ReadsCurrentBytes | fs_server/src/lib.rs:272-275 | After any such run a read through the handle answers exactly those bytes at that offset |
| Confinement.Confinement | fs_server/src/lib.rs:145-215 | Over every interleaving of a client holding only handles derived from one on `d` with anyone else: its rights never exceed the first handle's, its directories are `d` or below it in every later state, and each of its requests acts only inside `d` |
| Confinement.HandleIsConfined | fs_server/src/lib.rs:177-184 | The same for a client that starts with a single directory handle and nothing else |
| Confinement.MintedFrom | fs_server/src/lib.rs:790-806 | A minted handle has no right its parent lacks and names an entry of the parent's directory |
| Confinement.InsideKept | fs_server/src/lib.rs:396-443 | A directory that stays live keeps its place below `d`, whoever does what |
| Confinement.ClientNamesInside | fs_server/src/lib.rs:314-542 | A client's request changes names only in directories inside its subtree |
| Confinement.ClientActsInside | fs_server/src/lib.rs:145-672 | A client's request changes names only in directories inside `d`, bytes only of files its handles may write, attributes only of nodes its handles may write or that lose a name inside `d`, and mints handles only on entries of directories inside `d` |
| Acceptance.AcceptedIff | fs_server/src/lib.rs:145-672 | In every state satisfying the invariant a request is accepted if and only if its handles carry the rights its verb needs and the visible names, nodes, ids and attributes are as it needs them |
| Acceptance.OpenAccepted | fs_server/src/lib.rs:145-184 | An open succeeds exactly with a right to look and a visible entry of the right kind; rights beyond the parent's are refused |
| Acceptance.CreateAccepted | fs_server/src/lib.rs:193-335 | A creation succeeds exactly with CREATE (and DESCEND for a directory), a well-formed name that is free and fits, and a free id |
| Acceptance.RemoveAccepted | fs_server/src/lib.rs:471-542 | unlink succeeds exactly on a visible file, rmdir exactly on a visible empty directory, both with REMOVE |
| Acceptance.RenameAccepted | fs_server/src/lib.rs:396-443 | A rename succeeds exactly with REMOVE at the source and CREATE at the destination, directories in place, and a destination that is free, the same node, or replaceable by kind and emptiness |
| Acceptance.SetAccepted | fs_server/src/lib.rs:590-612 | Setting an attribute succeeds exactly with WRITE, a storable attribute, room in the list, and ids for what is missing |
| Acceptance.RemoveAttrAccepted | fs_server/src/lib.rs:630-643 | Removing an attribute succeeds exactly with WRITE and an attribute of that name |
| Acceptance.AttrReadAccepted | fs_server/src/lib.rs:562-625 | Getting succeeds exactly with READ, an attribute of that name and room for it; listing with READ |
| Acceptance.PlainAccepted | fs_server/src/lib.rs:231-359 | Reads, writes, truncations, listings and closes succeed exactly when authorized: nothing else can refuse them |
| Acceptance.Denied | fs_server/src/lib.rs:749-783 | A missing right changes nothing and is answered by the errno its verb documents: absent, read-only, not open for reading, or not permitted |
| Acceptance.Mints | fs_server/src/lib.rs:727-735 | An accepted open or creation mints the lowest free slot with exactly the node under that name and exactly the attenuated rights; no other slot changes |
| Acceptance.WriteAttrsIff | fs_server/src/lib.rs:903-942 | Writing a blob succeeds if and only if there are free ids for the store directory and the blob file where they are missing |
| NameTable.NamesStep | fs_server/src/lib.rs:193-542 | One permitted request makes of every directory's visible names exactly what its verb says: one name added, removed or moved on success, none otherwise, none anywhere else |
| NameTable.NamesRefineTable | fs_server/src/lib.rs:193-542 | After any permitted run the names of every directory are those the accepted creations, removals and renames make |
| Attributes.AttrsStep | fs_server/src/lib.rs:562-643 | One permitted request changes a node's attribute list exactly as the map node -> attributes says |
| Attributes.StoreRefinesMap | fs_server/src/lib.rs:562-643 | After any permitted run every node's attributes are those of the map: the sets and removes accepted on it, emptied when it loses its last name |
| Attributes.AnswersAgree | fs_server/src/lib.rs:562-625 | get and list answer what the map holds, with the errors for bad names, absent attributes and short buffers |
| Attributes.SetThenGet | fs_server/src/lib.rs:590-612 | After a set the attribute looks up as just set, and every other attribute of every node as before |
| Attributes.RenamesKeepAttrs | fs_server/src/lib.rs:410-442 | No sequence of renames changes the attributes of a node that none of them succeeds in replacing |
| Attributes.AttrsNamedStep | fs_server/src/lib.rs:590-612 | Given that only named nodes have attributes, a step keeps that so if and only if it does not set an attribute on a nameless node |
| Attributes.NoLeak | fs_server/src/lib.rs:944-962 | After any run that never does, no free id has attributes, so a reused id starts empty |
| Attributes.StoreExistsIff | fs_server/src/lib.rs:981-987 | The store directory exists if and only if some node has an attribute |
| Attributes.NoEmptyBlob | fs_server/src/lib.rs:903-942 | Every file in the store is the non-empty blob of exactly one node id |
| Witnesses.StaleHandleReachesAnotherDirectory | fs_server/src/lib.rs:512-521 | A run in which a removed directory's handle comes to name another directory |
| Witnesses.AttributeLeaks | fs_server/src/lib.rs:590-612 | A run in which a new file is born with the attribute of a deleted one |
| Store.PurgeEffect | fs_server/src/lib.rs:949-987 | Purging always succeeds, empties exactly one node's blob, drops the store with its last blob and changes nothing visible |
| Store.WriteEffect | fs_server/src/lib.rs:903-942 | Writing a blob makes it exactly that node's blob, changes no other and nothing visible |
| Store.ReplaceData | fs_server/src/lib.rs:935-940 | Writing from the front and truncating leaves exactly the new bytes: a shrinking blob leaves no tail |
| Store.ReadAttrsIsBlob | fs_server/src/lib.rs:879-898 | Reading a node's attributes never fails on a well-formed store and yields its blob, or nothing |
| AttrStore.FileNameInjective | crates/fs_proto/src/lib.rs:2039-2052 | Two node ids never share a blob file |
| AttrStore.FileNameSpells | crates/fs_proto/src/lib.rs:2039-2052 | The name of a blob file is eight lowercase hex digits that spell the node id |
| AttrCodec.RoundTrip | crates/fs_proto/src/lib.rs:2167-2204 | Decoding an encoded attribute list gives the list back |
| AttrCodec.TornBlob | crates/fs_proto/src/lib.rs:2189-2204 | Any prefix of an encoding reads as a prefix of the list: a torn blob yields fewer attributes, never a wrong one |
| AttrCodec.PutIsUpdate | crates/fs_proto/src/lib.rs:2104-2138 | Setting is a map update: the named attribute becomes the new one, every other is untouched |
| AttrCodec.PutKeepsOrder | crates/fs_proto/src/lib.rs:2104-2138 | Replacing keeps the order of a listing and a new attribute goes last |
| AttrCodec.PutKeepsGood | crates/fs_proto/src/lib.rs:2104-2138 | Setting keeps names distinct, sizes legal and the count within 16 |
| AttrCodec.WithoutIsDeletion | crates/fs_proto/src/lib.rs:2143-2157 | Removing is a map deletion |
| AttrCodec.WithoutSelects | crates/fs_proto/src/lib.rs:2143-2157 | The survivors of a removal keep their order |
| AttrCodec.StoreSet | crates/fs_proto/src/lib.rs:2104-2138 | The one-pass rewrite into a buffer yields exactly the encoding of the updated list if that fits the buffer and ENOSPC if it does not, or the error; with room for the old blob and one record it always fits |
| AttrCodec.RecordLayout | crates/fs_proto/src/lib.rs:2167-2179 | A record is the name's length, the kind in four bytes and the value's length in two, low byte first, the name, the value |
| AttrCodec.StoreRemove | crates/fs_proto/src/lib.rs:2143-2157 | The one-pass removal yields exactly the encoding of what is left, always shorter than before, or the error |
| Listing.PageDecodes | crates/fs_proto/src/lib.rs:1402-1437 | A page reads back as exactly the entries put in it: whole records only, and it is empty only if none was |
| Listing.FillPage | fs_server/src/lib.rs:246-262 | The page decodes to the entries from the cursor on, in order; it fits the buffer, and with the next record, if there is one, it would not |
| Listing.SortedIsListing | fs_server/src/lib.rs:244-245 | The sorted listing holds each name of the directory exactly once, in byte order |
| Listing.BeforeIs | fs_server/src/lib.rs:244-245 | Byte order: one name comes before another exactly if they agree up to some index where the one ends first or has the smaller byte |
| Listing.EncodeDirent | crates/fs_proto/src/lib.rs:1402-1411 | A record is the directory flag, the length byte and the name |
| Listing.PageIsFilled | fs_server/src/lib.rs:246-262 | A page holds whole records from the cursor on, fits the room, and one more record would not |
| Enumeration.DirentsAre | fs_server/src/lib.rs:231-264 | A listing is the directory's entries less the attribute store, each once, in order, with its kind |
| Enumeration.ListAll | fs_server/src/lib.rs:226-264 | Following the cursor to 0 bytes ends, yields a prefix of the whole listing, and yields all of it if and only if every record fits the buffer |
| BlockDisk.ReadAt | fs_server/src/lib.rs:1053-1060 | A read of any length fills exactly the slice at `block * 4096`; a failing chunk leaves the bytes before it read and the rest of the buffer alone |
| BlockDisk.WriteAt | fs_server/src/lib.rs:1062-1073 | A write of any length splices exactly its bytes at `block * 4096` and preserves every other byte; a failure at chunk i leaves precisely the first i chunks landed |
| BlockDisk.TransferredIs | fs_server/src/lib.rs:1053-1073 | A call transfers everything exactly if every chunk is in the image and none of its transport calls is refused, a short chunk of a write taking two; else the chunks before the first that fails |
| BlockDisk.PutChunk | fs_server/src/lib.rs:1062-1073 | One chunk lands whole or not at all, and a short one keeps the tail of its block |
| BlockDisk.ReadModifyWrite | fs_server/src/lib.rs:1042-1051 | Reading a block, overwriting its front and writing it back changes only the front |
| BlockDisk.SpliceTwice | fs_server/src/lib.rs:1062-1073 | Adjacent splices compose to one |
| Crash.Recording.ReadBlock | fs_server/src/crash.rs:102-106 | A read answers what replaying the log on the pristine disk has there |
| Crash.Recording.WriteBlock | fs_server/src/crash.rs:108-113 | The image stays equal to the replay of the log, which has grown by exactly this write |
| Crash.DamagedImage | fs_server/src/crash.rs:183-215 | Every byte of the image is the one offered by the last write to its block of which that byte reached the platter, as the damage says for write number and byte, and else the byte that was there before |
| Crash.DamagedBytes | fs_server/src/crash.rs:183-215 | For each damage and log, every byte left is that of the last write to its block of which that byte landed, or the pristine one |
| Crash.TearBytes | fs_server/src/crash.rs:185-188 | A torn block has the new bytes in front and the old bytes behind |
| Crash.OnlyThisGeneration | fs_server/src/crash.rs:228-235 | Every ring slot but one is zeroed and no other block changes |
| Crash.TornCutIsCut | fs_server/src/crash.rs:161-178 | A torn last write with all its bytes is a cut after it; with none, a cut before it |
| Crash.DroppedIsTorn | fs_server/src/crash.rs:161-178 | A dropped write is a torn one of which nothing landed; one of which all landed is no damage |
| Crash.TornChangesItsBlock | fs_server/src/crash.rs:170-177 | A dropped or torn write changes only its own block, and nothing if a later write covers that block |
| Crash.DamagedConcat | fs_server/src/crash.rs:183-215 | Damage to the later part of a log is that damage on the disk the earlier part left |
| CommitRing.CrashAtomic | fs_server/src/crash.rs:62-70 | For every log of copy-on-write transactions, a power cut tearing any write at any byte leaves a disk that mounts, its ring in place, as the last generation committed before it or as the one in flight, with every block of that generation as written: always for a data write, and for a header write if and only if the torn block is invalid, whole, or passed over by the mount's scan |
| CommitRing.TearsRecover | fs_server/src/crash.rs:217-227 | If a torn header of the run, over any block of the ring or header committed before, is valid only when it is one of the two whole, then every tear of every write is survived |
| CommitRing.CheckedSurvives | fs_server/src/crash.rs:217-227 | An instance: with a format that checks every byte of a header, every tear of every run over a ring of such headers and blanks is survived |
| CommitRing.UncheckedFails | fs_server/src/crash.rs:41-46 | With a format that looks at the first byte only, a commit torn after that byte leaves neither generation |
| CommitRing.CutRecovers | fs_server/src/crash.rs:161-178 | A clean cut after any number of writes recovers exactly the last generation whose header landed |
| CommitRing.HeaderTears | fs_server/src/crash.rs:62-70 | After a torn header write the disk mounts as the old generation or the new one if and only if the torn block is invalid, whole, or one the scan passes over |
| CommitRing.CommitsMonotone | fs_server/src/crash.rs:62-70 | A later cut never loses more, and with every write landed nothing is lost |
| CommitRing.GenerationAfter | vendor/redoxfs/src/transaction.rs:268-316 | Generations count the commits |
| CommitRing.ScanRing | vendor/redoxfs/src/filesystem.rs:55-71 | The scan of one ring ends with the first of its newest valid headers, the one it was entered by before all others, or with an error if the ring runs off the disk |
| CommitRing.Open | vendor/redoxfs/src/filesystem.rs:40-114 | The mount takes the first valid block, the ring that block's generation places it in, and that ring's newest header; an error if there is no valid block or the ring does not fit the disk |
| CommitRing.MountsOnce | vendor/redoxfs/src/filesystem.rs:40-114 | A disk mounts in one way only |
| CommitRing.RingMounts | vendor/redoxfs/src/filesystem.rs:55-71 | A ring whose valid headers are all in their slots mounts as its newest, wherever the scan enters it |
| CommitRing.MountWithoutHistory | fs_server/src/crash.rs:217-235 | With the ring's history blanked the disk mounts as what the kept slot holds if and only if that is a valid header in its own slot; if it is not valid and nothing behind the ring passes for a header, nothing mounts |
| MappingLog.MappingDb.RegisterSpace | kernel/src/revoke.rs:86-97 | Accepted exactly if some slot is free; then the first free slot, and no other, holds the space with an empty log, and the root is registered; refused, nothing changes; budgets, page tables and capabilities stay either way |
| MappingLog.MappingDb.ForgetRoot | kernel/src/revoke.rs:103-110 | No slot has that root afterwards: every slot that had it is free, and every other slot, budget, page table and capability is as it was |
| Revocation.RegisterIs | kernel/src/revoke.rs:86-97 | Registering succeeds exactly if some slot is free, fills the first free one and changes nothing else |
| Revocation.ForgetIs | kernel/src/revoke.rs:103-110 | Forgetting frees exactly the slots with that root and changes nothing else |
| MappingLog.MappingDb.FindRoom | kernel/src/revoke.rs:118-140 | The walk finds the first tombstone, or the first page with headroom, or that every page is full without a tombstone |
| MappingLog.MappingDb.RecordMapping | kernel/src/revoke.rs:118-155 | The chained pages afterwards hold the records the model says, in the place the model says, and the budget paid |
| MappingLog.MappingDb.UnmapEverywhere | kernel/src/revoke.rs:169-188 | Every record of the page is tombstoned and unmapped in every space but the spared one, and nothing else |
| MappingLog.MappingDb.RevokeFrame | kernel/src/revoke.rs:196-199 | Capabilities and mappings of the page are gone, as the model says |
| MappingLog.MappingDb.RevokeDeviceFromOthers | kernel/src/revoke.rs:218-223 | The page is taken from every thread and space but the invoker's |
| MappingLog.MappingDb.RevokeRegion | kernel/src/revoke.rs:233-259 | The outer loop ends; no space maps a page of the range, every mapping outside is untouched, and exactly the capabilities to mapped pages in range are gone |
| RevocationRuns.RevokeIsComplete | kernel/src/revoke.rs:190-199 | A revoked page is mapped nowhere and named by no frame capability; every other mapping and capability stays; no space, log page or budget changes |
| RevocationRuns.TakeBackSparesInvoker | kernel/src/revoke.rs:201-223 | A device page stays mapped exactly in the invoker's space and named exactly by the invoker's capability; frame capabilities, spaces, log pages and budgets stay |
| RevocationRuns.RangeIsRevoked | kernel/src/revoke.rs:225-259 | A mapping survives revoking a range exactly if it is outside; a capability exactly if its page is outside or was mapped nowhere; device capabilities, spaces, log pages and budgets stay |
| RevocationRuns.EndsIff | kernel/src/revoke.rs:229-259 | The loop of passes ends if and only if the range does not start at 0 or no used entry is in it |
| RevocationRuns.PassShrinks | kernel/src/revoke.rs:229-232 | Each pass leaves strictly fewer used entries in range, and none are left exactly when no victim is found |
| RevocationRuns.TombstoneAtZero | kernel/src/revoke.rs:233-259 | A registry with one tombstone and a range from 0 on which the loop never ends |
| RevocationRuns.RefusedIff | kernel/src/revoke.rs:112-155 | A record is refused exactly when the space is unknown or its log is full with no tombstone and its budget spent, and then nothing changes |
| RevocationRuns.RecordIs | kernel/src/revoke.rs:118-155 | An accepted record adds exactly one live record, and buys a page only if every entry of every page was live, which costs its own region one page and no other anything |
| RevocationRuns.MapKeeps | kernel/src/user.rs:301-309 | Mapping a page keeps records and page tables in agreement and adds exactly that mapping, or is refused and changes nothing |
| RevocationRuns.DropKeeps | kernel/src/user.rs:371-376 | Tearing a space down takes exactly its own mappings and its registration |
| RevocationRuns.HistoryKeeps | kernel/src/revoke.rs:86-259 | Over every history of registering, mapping, revoking and tearing down, records and page tables agree |
| RevocationRuns.LogBound | kernel/src/revoke.rs:112-155 | Over every history a space owns at most ceil(peak live records / 255) log pages |
| Revocation.PlacedIs | kernel/src/revoke.rs:124-140 | A record that finds room adds one live entry and disturbs no other; a log without room is live to the last entry |
| Nvme.AcceptsIff | crates/nvme/src/lib.rs:397-399 | The phase test passes if and only if an unconsumed answer is posted, and the entry is the oldest one: stale and blank entries are never accepted |
| Nvme.PhasesKept | crates/nvme/src/lib.rs:381-410 | Every step of either party, timeouts included, keeps the phase discipline across ring wraps |
| Nvme.StepInStep | kernel/src/nvme.rs:228-326 | With one command at a time every step passes the driver's assertions and an accepted answer is this command's |
| Nvme.NeverWrong | kernel/src/nvme.rs:228-331 | Over unboundedly many commands and wraps no assertion fires and no answer is mistaken, if the driver never gives up |
| Nvme.SafeIff | kernel/src/nvme.rs:272-321 | Whatever the controller does, a submission gets no wrong answer if and only if nothing is outstanding when it is made |
| Nvme.GiveUpIsUnsafe | kernel/src/nvme.rs:272-321 | After a timeout the very next submission can be answered by the abandoned command |
| Nvme.ControllerKeepsOut | kernel/src/nvme.rs:228-326 | The controller's steps neither lose nor invent a command |
| Nvme.LevelWhenIdle | crates/nvme/src/lib.rs:347-367 | Between commands head and tail of both rings are level with the controller's |
| Nvme.AnswerReachable | kernel/src/nvme.rs:272-321 | The controller can always bring the command in flight to an accepted answer |
| Nvme.Driver.Transact | kernel/src/nvme.rs:228-326 | Completed only with the one answer the controller posted for this command, and its status, at the first poll with news, and then the queue is in step; fatal only if the first news is the controller's death; timed out only if the controller neither answered nor died in `spins` turns; given up, exactly that command is outstanding |
| Nvme.OwnedIsAnswer | crates/nvme/src/lib.rs:395-399 | While a command is out, the head entry is the driver's exactly when the controller has answered, and then it is the one answer to that command |
| Nvme.PostedAre | kernel/src/nvme.rs:262-289 | What stands in the ring is what the controller answered, command by command and status by status |
| Nvme.Driver.Publish | crates/nvme/src/lib.rs:347-353 | Claims a slot that is always free; the new queue is the submit step, and exactly one new command is in flight |
| Nvme.Driver.Consume | crates/nvme/src/lib.rs:403-410 | Takes this command's answer, with its status, as the poll step does, and leaves the queue idle and in step |
| Memory.PlaceIn | kernel/src/memory.rs:278-290 | The scan of one region returns its lowest frame-aligned place clear of every forbidden region, or there is none; it runs off the address space only when there is none and some region ends within `need` and a frame of its top |
| Memory.PlaceBitmap | kernel/src/memory.rs:277-293 | A correct and complete first fit: the first region with room, its lowest place; no place only if nothing fits; it runs off the address space only if some region ends within `need` and a frame of its top |
| Memory.FirstFitIs | kernel/src/memory.rs:277-293 | The place first fit gives is determined by the memory map |
| Memory.JumpSkipsNothing | kernel/src/memory.rs:271-293 | No candidate between a collision and the end of the region collided with would have fitted |
| Memory.OverlapsIff | kernel/src/memory.rs:296-298 | The saturating test says exactly whether two runs share a byte |
| Memory.AlignUp | kernel/src/memory.rs:559-561 | The least multiple of the frame size not below the value |
| Memory.FrameAllocator.FrameRange | crates/frames/src/lib.rs:339-351 | Exactly the tracked frames that the run touches |
| Memory.FrameAllocator.Mark | crates/frames/src/lib.rs:204-234 | Exactly the frames touched take the flag |
| Memory.Forbidden.Claim | kernel/src/memory.rs:183-188 | A non-empty region is appended; an empty one is not |
| Memory.CollectClaims | kernel/src/memory.rs:173-216 | The array of forbidden regions is never overrun and holds exactly the non-empty claims, in order |
| Memory.Bootstrap | kernel/src/memory.rs:169-269 | The bitmap has a bit for every frame tracked and less than a byte to spare, and every whole frame of RAM is tracked; the bitmap is at its first-fit place; a frame can be handed out exactly if it touches RAM and neither a forbidden region nor the bitmap; every such frame lies in RAM if and only if the edges of the memory map are safe; unless some region ends near the top of the address space, the boot stops exactly when RAM is absent or unaligned or the bitmap fits nowhere |
| Memory.NeedIs | kernel/src/memory.rs:171-236 | The bitmap has a bit for every frame tracked and less than a byte to spare, and every whole frame of RAM is tracked |
| Memory.SpanAttained | kernel/src/memory.rs:169-170 | The tracked span starts where some RAM region starts and ends where some region ends |
| Memory.FreeIsRamIff | crates/frames/src/lib.rs:204-212 | Every frame handed out lies wholly in RAM if and only if each edge frame of each region is whole, completed by other regions, beyond the tracked frames, touched by a claim, or touched by the bitmap at its first-fit place: a condition on the memory map alone |
| Memory.WholeFramesAreRam | crates/frames/src/lib.rs:204-212 | With frame-aligned regions every free frame lies wholly in RAM |
| Memory.RaggedBoot | kernel/src/memory.rs:169-269 | The boot on a map with an image and a device tree claimed, after which a frame that is half outside RAM can be handed out |
| Pci.BarWindow.HostBridgePresent | kernel/src/pci.rs:49-60 | A nonzero ECAM base is cached once and the cursor then stays; the cursor retreats if and only if no nonzero base is cached and the tree's window starts below it, and then what has been placed is no longer kept apart |
| Pci.BarWindow.Reserve | kernel/src/pci.rs:74-88 | The next aligned run, above everything placed, if it ends inside the window; otherwise nothing |
| Pci.BarWindow.PlaceBar | kernel/src/pci.rs:66-94 | One BAR is placed, with its registers, or the window has no room for it and nothing changes |
| Pci.BarWindow.PlaceBars | kernel/src/pci.rs:65-96 | Each unassigned BAR gets the next run aligned to its size in slot order until one does not fit, the rest stay as they were, and it reports success exactly if all fit; everything ever placed stays stacked; the registers written decode to the place given, always in a window below 4 GiB, and otherwise if and only if the BAR is 64 bits wide or its place, known from the cursor before the call, is below 4 GiB |
| Pci.StackedIsDisjoint | kernel/src/pci.rs:65-96 | No two BARs ever placed, in any calls for any functions, share an address |
| Pci.NextMultiple | kernel/src/pci.rs:73-77 | The least aligned address not below the cursor |
| Pci.DecodedIff | kernel/src/pci.rs:89-93 | The registers written decode to the placed base if and only if the BAR is 64 bits wide or the base fits 32 |
| Pci.PlacedDecodes | kernel/src/pci.rs:89-93 | For a BAR of a positive multiple of 16 bytes that gets placed, the registers decode to its place if and only if it is 64 bits wide or that place is below 4 GiB |
| Pci.PlacedAligned | kernel/src/pci.rs:73-93 | For such a BAR the place is the first whole multiple of its size from the cursor on, and the register is the low half of that place with bit 2 set exactly for a 64-bit BAR |
| Pci.HighWindow | kernel/src/pci.rs:49-96 | A run on a tree whose window starts at 4 GiB: the 32-bit BAR is placed there and decodes elsewhere |
| Pci.CachedTwice | kernel/src/pci.rs:49-96 | A run on a tree with the ECAM at address 0: two functions get the same address |
| Kmem.Pool.TakePage | kernel/src/kmem.rs:65-108 | A page that is not out, zeroed: the last recycled one, else the next of the carve; once carved, none exactly when the carve is spent and nothing is recycled |
| Kmem.Pool.Recycle | kernel/src/kmem.rs:112-123 | The page is no longer out and is on the free stack, which never overflows |

## Left out

- RedoxFS below its transaction interface: block allocation, the H-tree, compression, encryption, seahash; nodes are finite maps and a header is what `Format` says of it.
- CommitRing.TearsRecover: that no torn header of the run passes its hash is the hypothesis, not something proved of seahash; mounting is the ring scan, and the clean-up a mount does afterwards is not modelled.
- Memory.PlaceIn: exactly when a scan among regions that end near 2^64 overflows depends on the order of the collisions; only the two bounds are stated.
- CommitRing.Open: a header whose generation points before block 0 makes the source's subtraction underflow; the model answers `EIO` there.
- I/O errors inside the file service: only the block layer fails; a verb's engine calls fail for the reasons the tree gives them.
- `statfs`, `fstat`, `sync_permitted`, the clock and timestamps: one branch each, or decoration.
- The wire encoding of requests and replies, and the 32- and 64-bit widths of handles, offsets and sizes: unbounded here.
- Crash.DamagedImage: works on blocks, not on one byte buffer; a damage naming a write that is not in the log is outside the source's contract and a precondition here.
- RevocationRuns.RangeIsRevoked: the capability sweep reaches only pages that have a record, as in the source; `base + size` past 2^64 is not modelled.
- MappingLog.MappingDb.RevokeRegion: requires the termination condition of `RevocationRuns.EndsIff`, because the source does not end otherwise.
- The race between deleting capabilities and an in-flight mapping on another core, which the source defers; locks, TLB maintenance and page-table formats.
- `AddressSpace` beyond recording, unrecording and tearing down a mapping.
- The `resolve` check of a virtio capability against its BAR: one branch.
- Nvme.NeverWrong: one queue pair with its own command ids (the source's two pairs share the counter); volatile accesses, doorbell registers and memory barriers are steps of a sequentially consistent machine; identify, queue creation and data transfer are not modelled.
- Nvme.Driver.Transact: a nonzero status is returned with the answer; the error the source makes of it is left to the caller.
- Memory.FrameAllocator.Mark: the bitmap is one flag a frame, not packed bits, and the running count of used frames is left out; allocation and freeing after the boot are not modelled.
- Pci.BarWindow.PlaceBars: sums past 2^64 and the retry of the compare-and-exchange (boot is single-core) are not modelled.
- Kmem.Pool.Recycle: requires the page to be out, which the source asks of its callers.
- The scheduler, IPC, the capability tables, SMP bring-up, consoles, drivers other than the one queue pair, user programs and benches: I/O, glue, or protocol code outside this model.
