# PeerDrive in Dafny

This project models the core of PeerDrive, a content-addressed file store over a Kademlia-style overlay, and proves
that it keeps its promises: files come back byte for byte, garbage collection spares what is pinned, the disk store
does what the memory store does and survives crashes, the routing table stays well-formed, lookups end, and the relay
never mixes up replies.

Run `dafny verify dfyconfig.toml`.

## How the model is laid out

**Blocks and files.** `Bytes` and `Cbor` hold byte strings and the CBOR subset that blocks use (unsigned integers, byte
strings, text strings and arrays of definite length; heads in shortest form when writing, as section 3.9 of RFC 7049
asks for, and in any of the five forms when reading). `Block` and `DagCodec` hold CIDs, block headers, node and manifest
payloads, and `WireFormat` the bytes they are written as. `DagTree` says what a DAG of blocks is worth: its content, and when its spans are exact. `DagShape` and
`DagBuild` are the builder that chunks a stream and folds levels; `DagFetch` is the sequential reader, which writes into
one shared array, and the verifier; `ParallelFetch` is the reader with goroutines, as small steps of a tree of calls,
`ParallelExact` says when it succeeds over any getter, `ParallelErrors` when an error of it leaves nothing running, and
`ParallelIntegrity` what it gives over peers that nobody trusts. The builder puts into a store, or offers blocks to peers first.

**Stores.** `StoreSpec` describes a pinning block store by functions on three maps. `MemStore` and `DiskStore` are
classes that change their fields in place, proved against those functions; `PinLaws` says what the pin operations mean
for collections; `DiskKeys` decodes the flat key space and
the files of the disk store into the three maps, and `DiskRefine` says when the two stores stay in step. `GcProtocol`
interleaves any store operation with a collector that snapshots, marks block by block and sweeps under separate locks,
and `GcExact` says exactly what such a collection frees.
`DiskCrash` cuts puts and sweeps at any step. `EndToEnd` joins builder, store, collector and both readers. `DistStore`
places blocks on peers.

**Network.** `NodeId`, `Bucket`, `Routing` and `RoutingTable` are the XOR metric, the buckets, runs of table operations
and the table object; `NearSearch` and `NearExact` are what its radius-expanding search guarantees. `Candidates`,
`Dialing` and `Lookup` are the three iterative lookups over an arbitrary network. `Relay` is the relay broker as
interleaved handlers.

**Examples.** `Samples`, `GcExamples`, `FetchExamples` and `NearExample` hold concrete stores, runs and tables for the
surprises listed below.

## What stands for what

- **The hash** is any function from byte strings to 32 bytes. No theorem assumes it injective, which no function into
  32 bytes is. Where a collision would matter, the statement names the blocks that must not collide: `NoClash` for the
  blocks of one build, `Respects` for a put over a pinned block, `NoConflict` for two getters.
- **The CBOR decoder** refuses ill-formed UTF-8 text and arrays longer than a limit (`maxElems`), as the library does
  with its defaults. So the promised round trip is not unconditional. It holds if and only if the file name and MIME
  type are well-formed and the widest node is within the limit (`Retrievable`), and a file built beyond that is
  never fetched.
- **Lengths** of payloads, names and whole files are below 2^63, the lengths Go slices and strings can have. Spans and
  sizes read from blocks are 64-bit and offsets wrap. Slicing out of range is the error `Panic`. A node of more than 2^57
  children, or a manifest of 2^63 bytes, cannot be written: the builder reports `TooLarge` (`Writable`).
- **A block getter** is a finite map from CIDs to the blocks it answers with. A CID outside it is an error. Readers
  need a depth bound (`Bounded`) because links of a hostile getter could go on for ever; every stored file has one.
- **Time** is an integer of nanoseconds and a parameter. The disk store keeps whole seconds.
- **The network** of a lookup is any function from contacts to replies, and replies of a batch are taken in any order.
  Since no address is dialed twice in a lookup, one reply a peer loses nothing. The addresses that peers ever report form
  a finite set (`world`); without that no bound on the rounds exists.
- **The announcement** of a put and the acknowledgement of a remote put are parameters.

## Where the code does not do what one would expect

- `Verify` does not add spans up. `AcceptedZeros` builds a manifest it accepts whose fetch is all zeros;
  `AcceptsExactly` says what is missing.
- Direct and unexpired soft pins stop the mark phase. `DirectPinFrees` is a store where a collection frees a block below
  a recursive pin; `Guarded` asks that no such pin sits on a block with links, which is what `Durability` needs.
- Marking renews expired soft pins, so a second collection can take them for roots. `ExpiredPinFrees` is a store where it
  then frees a block; `SparedAgain` says exactly which blocks the second collection keeps.
- `Closest` stops at a symmetric radius. `IsClosest` says what it may miss, `ExactlyWhen` when it misses nothing, in both
  directions, and `NearExample` is a table where it returns the farther of two contacts.
- A lookup drops visited contacts from the front of its shortlist. When the last round heard from anyone, the nearest
  contact returned was never dialed, so the result is not the set of nearest nodes known.
- `Get` takes an empty value for no value, while `GetClosest` keeps it.
- A disk store and a memory store differ in what a collection leaves exactly when a stored block has a soft pin in its
  last incomplete second (`FlooredGC`, `StoresDiffer`). A block fetched from a peer renews its soft pin in memory and not
  on disk; `FlooredFetch` says exactly when that makes no difference.
- Puts and sweeps of one CID take no lock on disk. A put that overlaps with a put or with a sweep can be lost after it
  was completed (`OverlappingPuts`, `PutDuringSweep`), though a read never gives other bytes. Sweeps that overlap do no
  harm: `ExactPolicy` says which overlaps are safe, in both directions.
- Storing a block and pinning it are two steps, in the distributed store and when a file is added and then pinned. A
  collection whose snapshot falls between them frees the block in spite of the pin (`SnapshotBetweenFrees`).
  `CollectionExactly` says which blocks a collection frees that runs meanwhile, and `AddedDuringCollection` when all
  blocks of a file survive it.
- The sequential reader refuses a node with more spans than children, the parallel one does not (`FetchableIsUsable`), and
  neither checks that spans add up: what then lies in the buffer is what the last leaf over each byte has (`Fetch`).
- `FetchParallel` can return an error while other calls are still running. `QuietExactly`: it cannot exactly when at
  every node of the tree only the last child is above the inline limit, as in a file of one leaf.

## Model

| member | source | states |
|---|---|---|
| Cbor.RoundTrip | internal/block/block.go:41-48 | Decoding an encoded item in front of any tail gives the item and the tail when text is well-formed and arrays are within the limit, and fails otherwise. |
| Cbor.Local | internal/block/block.go:92-99 | Decoding one item looks at no byte beyond it: the bytes used decode the same in front of any tail. |
| Cbor.DecodedAccepted | internal/block/block.go:87-104 | Whatever the decoder returns has well-formed text and arrays within the limit. |
| Block.CidRoundTrip | internal/block/cid.go:48-64 | The 34 bytes of a CID read back to the CID. |
| Block.DecodeStable | internal/block/block.go:86-120 | The bytes a decoded block keeps decode to that same block, with its CID, in front of any tail. |
| Block.BuiltRoundTrip | internal/block/block.go:67-120 | A built block followed by any tail decodes to the same header, payload, bytes and CID, if and only if the codec name is well-formed. |
| Block.Reserialized | internal/block/block.go:35-53 | Serializing a decoded block again gives its bytes exactly when its header was in canonical form. |
| Block.BlockBuilder.Serialize | internal/block/block.go:35-53 | Sets the size field to the payload's length and the bytes to header and payload, and nothing else. |
| Block.BlockBuilder.ComputeCID | internal/block/block.go:55-65 | Sets the CID to the hash of the bytes, and fails without a change when there are none. |
| Block.BuildBlock | internal/block/block.go:67-84 | Returns a block that its own bytes decode to, with header version 1, the type, the codec and the payload's length, the payload at the end of its bytes, and the hash of its bytes behind the version and a reserved byte as its CID. |
| WireFormat.HeaderLayout | internal/block/block.go:19-53 | A header is written as an array of version, type, size and codec, in this order. |
| WireFormat.NodeLayout | internal/dag/dag.go:16-23 | A node is written as an array of version, size, fanout, CIDs and spans, in this order. |
| WireFormat.ManifestLayout | internal/dag/dag.go:25-34 | A manifest is written as an array of version, size, chunk, fanout, root, name and MIME type, in this order. |
| WireFormat.ShortestHead | internal/block/block.go:41-48 | No head that reads as the same type and number takes fewer bytes than the one that is written. |
| WireFormat.NothingTrails | internal/dag/dag.go:291-294 | Bytes behind a node or a manifest make its decoding fail. |
| WireFormat.DecodedManifestFits | internal/dag/dag.go:25-34 | Every number in a decoded manifest, forged or not, is within its field's width. |
| WireFormat.Integers | internal/block/block.go:41-48 | Unsigned integers are written as the examples of RFC 7049 are. |
| WireFormat.StringsAndArray | internal/block/block.go:41-48 | Strings and arrays are written as the examples of RFC 7049 are. |
| DagCodec.NodeRoundTrip | internal/dag/dag.go:16-23 | A node payload with its nested arrays decodes to itself if and only if both arrays are within the limit. |
| DagCodec.ManifestRoundTrip | internal/dag/dag.go:25-34 | A manifest payload decodes to itself if and only if name and MIME type are well-formed. |
| DagCodec.NodeSize | internal/dag/dag.go:134-139 | An encoded node takes at most 46 bytes a child and 63 more. |
| DagCodec.ManifestSize | internal/dag/dag.go:153-158 | An encoded manifest takes its name, its MIME type and less than 128 bytes more. |
| DagCodec.DecodedNodeFits | internal/dag/dag.go:291-301 | Every number in a decoded node, forged or not, is within its field's width. |
| DagCodec.CidsPointwise | internal/dag/dag.go:437-445 | The CIDs of a node are readable together exactly when each one is, and come out in order. |
| DagCodec.CidsRoundTrip | internal/dag/dag.go:126-134 | The CIDs written into a node read back in order. |
| DagTree.ContentLength | internal/dag/dag.go:109-151 | A subtree with exact spans carries exactly as many bytes as its span says. |
| DagTree.AgreeKeeps | internal/dag/dag.go:236-320 | Shape and content of a subtree depend on its own blocks only. |
| DagTree.FileKept | internal/dag/dag.go:236-320 | A getter that answers alike on the blocks of a file has the same file. |
| DagShape.CeilDivGalois | internal/dag/dag.go:120-122 | n entries fit m groups of k if and only if the number of groups is at most m. |
| DagShape.CeilDivShrinks | internal/dag/dag.go:119-149 | With fanout above 1 every fold makes the level smaller, so folding ends. |
| DagShape.LeastHeight | internal/dag/dag.go:119-151 | Folding takes the least h with Fanout^h at least the number of leaves. |
| DagShape.LevelSplit | internal/dag/dag.go:121-123 | A run of entries of a level stands for the matching piece of the data. |
| DagShape.NodeLevel | internal/dag/dag.go:125-146 | The node over a group of entries stands for the group's bytes, one level higher, with exact spans. |
| DagShape.SettledBounded | internal/dag/dag.go:262-320 | Below an entry whose blocks were all put, links unfold to at most its height over every getter that has the blocks, so readers come to an end there. |
| DagShape.BrokenFails | internal/dag/dag.go:262-320 | A DAG whose lowest nodes do not decode makes every fetch over it fail. |
| DagBuild.Reader.ReadFull | internal/dag/dag.go:69-79 | Reads a full chunk, or what is left with the reason why it is short. |
| DagBuild.DagBuilder.ReadLeaves | internal/dag/dag.go:65-107 | The leaves put so far stand for the whole stream in order, one a chunk, all but the last of them full, and one for an empty stream. |
| DagBuild.DagBuilder.GroupPayload | internal/dag/dag.go:125-134 | The node over a group has the CIDs and spans in order and the sum of the spans as its size. |
| DagBuild.DagBuilder.FoldOne | internal/dag/dag.go:119-149 | One pass puts the nodes of the next level, which stands for the same bytes with a fanout-th of the entries; it fails only for a refused announcement, or for groups of more than 2^57 entries. |
| DagBuild.DagBuilder.FoldLevels | internal/dag/dag.go:118-151 | Folding ends in one entry for all the bytes, at the least possible height, and fails for the same two reasons only. |
| DagBuild.DagBuilder.BuildFromReader | internal/dag/dag.go:56-166 | The build fails for bad parameters, a failing reader, a refused announcement, or a node or manifest longer than a slice can be, and for nothing else. It returns a manifest that decodes to version 1, the size of the stream, the file name, the MIME type, and the chunk size and fanout as far as their fields hold them, or does not decode when a text is ill-formed. After success and without collisions the blocks are all in the store, or, in a distributed build, each held by peers that acknowledged it or by a direct pin; and over every getter that has them the manifest is, if it is retrievable, the stream as a balanced DAG of least height, with full leaves and full nodes but for the last of each level, all with their versions, codecs and fanout, and otherwise a bounded DAG no fetch of which succeeds. |
| DagBuild.DagBuilder.SendToPeers | internal/service/dist_store.go:37-100 | Putting one more block of a distributed build leaves every block so far where it was placed, and places this one. |
| DagBuild.NeverFetched | internal/dag/dag.go:236-260 | A manifest that does not decode, or whose root is broken, is never fetched. |
| DagBuild.BuiltReadable | internal/storage/memory.go:65-90 | Local reads find every block of a build without collisions. |
| DagFetch.FetchWritesContent | internal/dag/dag.go:262-320 | On exact spans the recursive reader writes the content at its place in the buffer and changes no other byte. |
| DagFetch.FetchReturnsFile | internal/dag/dag.go:236-260 | A stored file is fetched byte for byte. |
| DagFetch.Fetch | internal/dag/dag.go:236-260 | Over any getter: succeeds if and only if the manifest is there, decodes, names a readable root and a size below 2^63, and every block below the root is under its own CID, every leaf long enough and inside the buffer, every node of the size asked for with a span for each child. Then it returns as many bytes as the manifest says; each byte is that of the last leaf laid over it, or zero. |
| DagFetch.FetchExactly | internal/dag/dag.go:262-320 | The same for a subtree and any buffer: success exactly on such blocks, and then each byte is that of the last leaf over it, or what was there before. |
| DagFetch.FetchRangeSeq | internal/dag/dag.go:262-320 | The recursive writer leaves the shared array as specified, with wrapping offsets and out-of-range slices as panics. |
| DagFetch.Verify | internal/dag/dag.go:168-191 | Accepts exactly the readable manifests whose DAG passes every check the verifier makes. |
| DagFetch.VerifySubtree | internal/dag/dag.go:193-234 | The same for a subtree and its expected span. |
| DagFetch.AcceptsExactly | internal/dag/dag.go:193-234 | Exact spans are the verifier's checks together with the sums it leaves out, in both directions. |
| DagFetch.StoredFileVerifies | internal/dag/dag.go:168-234 | Every stored file, so every built one, is accepted and its spans add up. |
| DagFetch.VerifiedFileFetches | internal/dag/dag.go:168-320 | When Verify accepts and spans add up, Fetch returns the leaf payloads from left to right, as many bytes as the manifest says. |
| DagFetch.ChildlessNodeAccepted | internal/dag/dag.go:210-230 | A childless node of any size is accepted, and zeros are fetched for it. |
| FetchExamples.AcceptedZeros | internal/dag/dag.go:168-234 | Concrete blocks for it: for every size, a manifest and a node that are accepted and fetched as that many zeros. |
| DagFetch.FetchAgrees | internal/dag/dag.go:262-320 | Two getters that do not conflict and both let a fetch succeed give the same bytes. |
| DagFetch.FetchIntegrity | internal/dag/dag.go:236-320 | Whatever peers answer below the right manifest, a fetch fails or returns the file. |
| DagFetch.ConflictIsCollision | internal/block/cid.go:40-46 | Getters of decoded blocks conflict only through two byte strings with one hash. |
| ParallelFetch.StepKeeps | internal/dag/dag.go:364-422 | Any step of any call keeps the invariant of the tree of calls and writes only inside its own part of the buffer. |
| ParallelFetch.KidsApart | internal/dag/dag.go:392-412 | Two children of a node never share a byte of the buffer. |
| ParallelFetch.StepReaders | internal/dag/dag.go:364-371 | A step starts at most one block read, and none without a free slot. |
| ParallelFetch.NoDeadlock | internal/dag/dag.go:344-422 | While any call has not returned, some call can take a step. |
| ParallelFetch.StepLeft | internal/dag/dag.go:364-422 | Every step lowers a bound on the steps that are left. |
| ParallelFetch.Finished | internal/dag/dag.go:364-422 | A call that returned without error has its content in place and nothing running below it. |
| ParallelFetch.EverySchedule | internal/dag/dag.go:322-422 | In every schedule over a stored file, with or without failing reads: no panic, at most parallel reads in flight, or 16 when that is not positive, boundedly many steps, no deadlock; a success equals the sequential fetch and leaves nothing running; without failing reads it ends in success. |
| ParallelExact.SucceedsExactly | internal/dag/dag.go:322-422 | Over any getter and in every schedule, a success means that every block below the root is what the reader needs; when all are and no read fails, no call panics and a return is a success; and nothing but a panic stops a schedule. |
| ParallelExact.FetchableIsUsable | internal/dag/dag.go:298-300 | What the sequential reader needs is what the parallel one needs together with as many spans as children in every node. |
| ParallelErrors.QuietExactly | internal/dag/dag.go:364-422 | A return, with or without an error, leaves nothing running in any schedule, with any slots, buffer and failing reads, if and only if at every node of the tree only the last child is above the inline limit. |
| ParallelErrors.ErrorChain | internal/dag/dag.go:397-418 | Over every other tree, with any number of slots and any buffer, there is a run in which the call returns the error of one child while a goroutine below it has yet to run. |
| FetchExamples.ForkExists | internal/dag/dag.go:401-410 | There are such trees: a node over two leaves of 65537 bytes. |
| ParallelIntegrity.IntegrityInParallel | internal/dag/dag.go:322-422 | Whatever peers answer below the right manifest, every schedule, reads failing or not, is free of panics and deadlocks, takes boundedly many steps, and returns the file or an error. |
| ParallelIntegrity.HonestStep | internal/dag/dag.go:364-422 | A step of a fetch over any peers is a step over the stored blocks in which a read may fail. |
| StoreSpec.LiveExactly | internal/storage/memory.go:235-265 | The marked set is the single pins and what walks from recursive pins reach around them, and nothing else. |
| StoreSpec.MarkNew | internal/storage/memory.go:240-265 | Marking a block and pushing its unmarked children keeps the mark invariant. |
| StoreSpec.MarkDone | internal/storage/memory.go:240-265 | With the stack empty the marked set is the live set, on cyclic and dangling graphs too. |
| MemStore.MemStore.PutBlock | internal/storage/memory.go:53-63 | The sealed block is stored even when its announcement fails. |
| MemStore.MemStore.PutBlockLocally | internal/storage/memory.go:65-90 | Fills in missing bytes and CID, trusts a CID that is there, and stores under it. |
| MemStore.MemStore.GetBlockLocal | internal/storage/memory.go:128-157 | Returns only a block that decodes and hashes to the CID, and then renews its soft pin, expired or not. |
| StoreSpec.LocalReadIs | internal/storage/memory.go:128-157 | A local read gives the block if and only if it is stored, decodes and hashes to the CID, and changes nothing but that block's soft pin. |
| MemStore.MemStore.GetBlock | internal/storage/memory.go:92-126 | A block that is held is returned; else the reply, if it is not empty and decodes, and else an error. The reply is kept exactly when it is the block asked for; local reads then find it and no other block changes. The soft pin of a block so read is renewed, and no other. |
| StoreSpec.SecondRead | internal/storage/memory.go:92-126 | A block that was read once is returned again without any peer. |
| StoreSpec.SealedIs | internal/storage/memory.go:72-81 | Sealing leaves the payload, bytes and CID that are there; bytes it fills in decode to the header with the payload's size and to the payload, a CID it fills in is their hash. |
| StoreSpec.PutIsRead | internal/storage/memory.go:83-90 | A block that was put is read under its CID if and only if its bytes hash to it, and no other block is affected. |
| MemStore.MemStore.Pin | internal/storage/memory.go:159-169 | The whole state changes to a recursive pin with the soft pin gone. |
| MemStore.MemStore.PinDirect | internal/storage/memory.go:171-178 | Replaces any pin by a direct one. |
| MemStore.MemStore.PinSoft | internal/storage/memory.go:180-190 | Sets an expiry unless there is a hard pin. |
| MemStore.MemStore.Unpin | internal/storage/memory.go:192-201 | Removes every pin. |
| PinLaws.HardPinSets | internal/storage/memory.go:159-178 | A recursive pin makes a block a root and takes its single pin away; a direct pin does the reverse. |
| PinLaws.SoftPinSets | internal/storage/memory.go:180-190 | A soft pin counts until its expiry and not beside a hard one. |
| PinLaws.UnpinSets | internal/storage/memory.go:192-201 | An unpinned block is no root and has no single pin. |
| PinLaws.PinsLeaveBlocks | internal/storage/memory.go:159-201 | No pin operation touches a block. |
| PinLaws.PinGuards | internal/storage/memory.go:159-169 | Pinning a manifest guards its DAG if and only if no other block of it with links has a direct or soft pin, whatever pin the manifest had. |
| PinLaws.KeptExactly | internal/storage/memory.go:216-289 | A collection keeps a stored block if and only if it has a single pin or recursive pins reach it around those. |
| PinLaws.RenewedExactly | internal/storage/memory.go:147-152 | A collection renews a soft pin if and only if its block is readable and reached in that way, and changes no other pin. |
| PinLaws.HardPinKeeps | internal/storage/memory.go:237-248 | A hard pin keeps a stored block through every collection. |
| PinLaws.SoftPinExactly | internal/storage/memory.go:180-190 | A softly pinned block is kept until the expiry, and afterwards if and only if recursive pins reach it. |
| PinLaws.UnpinExactly | internal/storage/memory.go:192-201 | An unpinned block is kept if and only if recursive pins of others reach it. |
| MemStore.MemStore.ListPins | internal/storage/memory.go:203-214 | Lists the hard pins, each once. |
| MemStore.MemStore.GC | internal/storage/memory.go:216-289 | Keeps exactly the live blocks unchanged, renews exactly the soft pins of the blocks read while marking, and counts the removed keys. |
| MemStore.MemStore.Mark | internal/storage/memory.go:235-265 | The stack loop ends on any graph with exactly the live set. |
| MemStore.MemStore.Sweep | internal/storage/memory.go:267-288 | Removes exactly the unmarked keys and counts those that were still stored. |
| GcProtocol.CollectionSpares | internal/storage/memory.go:221-286 | A collection interleaved with any puts, reads, pins and unpins frees only keys of its snapshot that its recursive pins did not reach around the single pins. |
| GcProtocol.SafeStep | internal/storage/memory.go:159-289 | Every harmless step keeps a guarded file whole, in the middle of a collection too. |
| GcProtocol.SecureStep | internal/storage/memory.go:216-289 | A guarded file that no running collection can free, as it covers the file or has none of its blocks unmarked in its snapshot, stays so under every harmless step. |
| GcProtocol.GuardedIsSecure | internal/storage/memory.go:221-233 | That is so of every guarded file when no collection runs, or one whose snapshot has none of its blocks. |
| GcProtocol.Durability | internal/storage/memory.go:159-289 | A file with a recursively pinned manifest is fetched byte for byte at every point of every harmless run, whether it begins with no collection running or in the middle of one that cannot free a block of it. |
| GcExact.FreedExactly | internal/storage/memory.go:216-289 | From any point of its mark phase, whatever others put, read, pin and unpin: a collection spares a block that is stored when it sweeps if and only if its snapshot had no such key, or the block is marked or reached by the stack around the marked ones. |
| GcExact.CollectionExactly | internal/storage/memory.go:216-289 | From its snapshot: it spares the block if and only if it was not stored at the snapshot or was live at the snapshot, whatever pins came later. |
| GcProtocol.GateFreed | internal/storage/memory.go:237-248 | A direct or unexpired soft pin hides from a collection all that is reached only through it. |
| GcProtocol.ExpiredPinRevived | internal/storage/memory.go:147-152 | Marking renews an expired soft pin, and the next collection takes it for a root. |
| GcProtocol.SecondCollectionFrees | internal/storage/memory.go:216-289 | So a block spared by one collection can be freed by the next with no pin changed by anyone. |
| GcProtocol.SparedAgain | internal/storage/memory.go:216-289 | A block kept by one collection is kept by the next if and only if it has a single pin by then, given which pins the first collection renewed and which run out, or recursive pins reach it around those pins along blocks the first one kept. |
| GcExamples.DirectPinFrees | internal/storage/memory.go:237-248 | A concrete store where a direct pin makes a collection free a leaf that a recursive pin reaches. |
| GcExamples.ExpiredPinFrees | internal/storage/memory.go:147-152 | A concrete store where two collections in a row, with no pin changed by anyone, first spare and then free a leaf below a recursive pin. |
| EndToEnd.AddAndPin | internal/service/service.go:102-160 | Adding and pinning fails for the causes the builder has and no other, and then leaves all pins alone. Else the manifest describes the file and is pinned, with no single pin of its own left, and a retrievable file is durable if no other block of it with links had a direct or soft pin before: whatever harmless run of store operations and collections goes on while it is read, each block at a point of its own, it is read back byte for byte. |
| EndToEnd.PinnedIsDurable | internal/storage/memory.go:159-289 | The same for any file that is stored whole, once its manifest is pinned and no link is blocked by a direct or soft pin; the run may begin in the middle of a collection that cannot free a block of it. |
| EndToEnd.PinMakesDurable | internal/storage/memory.go:159-169 | From the state before the pin: pinning the manifest of a stored file makes it durable when no other block of it with links has a direct or soft pin. |
| EndToEnd.AddedDuringCollection | internal/service/service.go:102-160 | A file added and pinned in many steps while a collection runs: all its blocks survive the sweep if and only if each one was missing in the snapshot or due to be marked, and then the file is durable. |
| EndToEnd.DurableInParallel | internal/service/service.go:156-158 | Over such answers the parallel fetch, in every schedule, can go on or has returned these bytes. |
| DiskKeys.KeysDiffer | internal/storage/disk.go:56-78 | Keys are equal only for the same kind and the same CID. |
| DiskKeys.KeyRoundTrip | internal/storage/disk.go:102-107 | A key gives its CID back. |
| DiskKeys.SectionComplete | internal/storage/disk.go:275-287 | Iterating over the three prefixes misses no key. |
| DiskKeys.SectionPut | internal/storage/disk.go:226-259 | Writing a key of one kind changes one entry of that kind and none of another. |
| DiskKeys.PathsDiffer | internal/storage/disk.go:109-121 | Block files of different CIDs, and all temporary files, have names of their own. |
| DiskKeys.ExpiryRoundTrip | internal/storage/disk.go:80-100 | Every 64-bit number of seconds survives being stored, negative ones included. |
| DiskKeys.EncodeExpiry | internal/storage/disk.go:80-89 | The byte loop writes eight bytes that stand for the time rounded down to a second. |
| DiskKeys.FloorIs | internal/storage/disk.go:80-89 | What is stored is the last whole second at or before the expiry, before the epoch too. |
| DiskKeys.ReadExpiry | internal/storage/disk.go:91-100 | The shift loop reads them back with 64-bit wrap-around, and the epoch from a short value. |
| DiskKeys.BlockPut | internal/storage/disk.go:151-165 | Renaming the file into place and indexing it stores one block and changes no other part of the state. |
| DiskKeys.BlockDelete | internal/storage/disk.go:391-403 | Removing file and index entry removes one block and nothing else. |
| DiskStore.DiskStore.PutBlockLocally | internal/storage/disk.go:134-166 | Does to the three maps the disk stands for what the memory store does. |
| DiskStore.DiskStore.GetBlockLocal | internal/storage/disk.go:195-224 | Answers as the memory store does and renews with a whole-second expiry. |
| DiskStore.DiskStore.GetBlock | internal/storage/disk.go:168-193 | Answers and keeps as the memory store does: the block that is held, else what the reply decodes to, kept exactly when it is the block asked for. A block kept from a peer renews no soft pin. |
| DiskStore.DiskStore.Pin | internal/storage/disk.go:226-236 | The key updates amount to a recursive pin. |
| DiskStore.DiskStore.PinDirect | internal/storage/disk.go:238-248 | The key updates amount to a direct pin. |
| DiskStore.DiskStore.PinSoft | internal/storage/disk.go:250-259 | The key update amounts to a soft pin unless a hard one exists. |
| DiskStore.DiskStore.Unpin | internal/storage/disk.go:261-268 | The key updates remove every pin. |
| DiskStore.DiskStore.ListPins | internal/storage/disk.go:270-292 | Lists the hard pins, each once. |
| DiskStore.DiskStore.GC | internal/storage/disk.go:294-405 | Does to the maps what the memory collection does, and counts the index entries removed. |
| DiskRefine.FlooredCommutes | internal/storage/disk.go:134-268 | Put, local read and every pin operation commute with rounding expiries down to seconds. |
| DiskRefine.FlooredFetch | internal/storage/disk.go:168-193 | Reads that may fall back on a peer commute with that rounding if and only if the block is read locally, or the peer does not give it, or it has no soft pin, or its expiry is already in the second of the renewed one. |
| DiskRefine.FlooredRoots | internal/storage/disk.go:319-329 | Both stores take the same pins for roots if and only if no soft pin is in its last incomplete second. |
| DiskRefine.FlooredGC | internal/storage/disk.go:294-405 | With readable blocks and renewals that last a second, whole collections commute if and only if no stored block has a soft pin in its last incomplete second. |
| DiskRefine.LastSecondDiffers | internal/storage/disk.go:319-329 | One such pin makes the two stores differ, in the block itself or in its expiry. |
| DiskRefine.StoresDiffer | internal/storage/disk.go:319-329 | A concrete state in which the memory store keeps a block that the disk store drops. |
| DiskCrash.IntactStep | internal/storage/disk.go:151-165 | Every step of a put that is alone with its CID or of any of several sweeps, every step for other CIDs, and a crash between any two, leaves the file of the CID whole. |
| DiskCrash.CrashConsistency | internal/storage/disk.go:195-217 | For a CID whose puts overlap neither with puts nor with sweeps, at every point of every run with crashes and any tasks for other CIDs, a read gives the block put under it or an error, and a completed put is readable. |
| DiskCrash.ExactPolicy | internal/storage/disk.go:134-405 | Of the kinds of overlap for one CID, put with put, put with sweep and sweep with sweep: completed puts stay readable in every run a choice of them allows if and only if it allows neither of the first two. |
| DiskCrash.NeverOtherBytes | internal/storage/disk.go:195-217 | With any overlaps a read gives the block put under the CID, an error, or a block that collides with it under the hash. |
| DiskCrash.DoneStays | internal/storage/disk.go:391-403 | A completed put stays completed until a sweep removes its file. |
| DiskCrash.OverlappingPuts | internal/storage/disk.go:156-165 | A run of two overlapping puts of one block after which the completed one cannot be read. |
| DiskCrash.PutDuringSweep | internal/storage/disk.go:391-403 | A run in which a put between the two halves of a sweep completes and loses its index entry. |
| NodeId.BitsXor | internal/id/id.go:25-31 | The bits of the distance are where the two IDs differ. |
| NodeId.NearerAt | internal/id/id.go:25-31 | Which of two IDs is nearer is decided at the first bit where they differ. |
| NodeId.DistanceInjective | internal/id/id.go:25-31 | Only equal IDs are equally far from a target. |
| NodeId.LowerBucketIsFarther | internal/routing/routing.go:55-75 | A contact below both another contact's and the target's bucket is farther from the target. |
| NodeId.SameBucketIsNearer | internal/routing/routing.go:55-75 | A contact in the target's bucket is nearer than any contact above it. |
| Bucket.TouchedKeeps | internal/routing/bucket.go:15-40 | Seeing a contact leaves it last, keeps IDs distinct and the bound, and loses at most the oldest contact of a full bucket. |
| Bucket.Bucket.Touch | internal/routing/bucket.go:15-40 | Rewrites the list as specified and returns what was evicted. |
| Bucket.Bucket.RemoveByID | internal/routing/bucket.go:51-61 | Removes the contact with the ID, keeping the order, and says whether there was one. |
| Bucket.Bucket.RemoveByAddr | internal/routing/bucket.go:63-83 | The in-place compaction is a stable filter, and counts what it drops. |
| Routing.IdsUnique | internal/routing/routing.go:46-53 | No ID is in the table twice, in one bucket or in two. |
| Routing.SeenOrderKept | internal/routing/bucket.go:15-83 | What a step can do to a bucket keeps it in last-seen order. |
| Routing.TableInvariant | internal/routing/routing.go:46-88 | After every run each contact is in the bucket of its first bit that differs from self, once, never self, at most K a bucket, in last-seen order. |
| Routing.SeenIsThere | internal/routing/routing.go:46-53 | A contact just seen is in the table, last in its bucket and alone with its ID; nothing else is lost but the oldest contact of a bucket that was full. |
| Routing.RemovedIsGone | internal/routing/routing.go:77-80 | A removed ID is gone and every other contact stays. |
| Routing.AddrIsGone | internal/routing/routing.go:82-88 | Every contact at a removed address is gone and every other one stays. |
| Routing.EntriesAreLatest | internal/routing/routing.go:46-88 | Over every run each entry is what the last step that saw its ID reported, and was not removed since. |
| RoutingTable.RoutingTable.BucketIndex | internal/routing/routing.go:26-44 | The nested bit loops find the first bit that differs from self, and the last index for self. |
| RoutingTable.RoutingTable.Update | internal/routing/routing.go:46-53 | Touches one bucket, ignores self, and keeps the table well-formed. |
| RoutingTable.RoutingTable.Remove | internal/routing/routing.go:77-80 | Removes the ID wherever it is and says whether it was there. |
| RoutingTable.RoutingTable.RemoveByAddr | internal/routing/routing.go:82-88 | Filters every bucket, and returns by how much the whole table shrank. |
| RoutingTable.RoutingTable.Closest | internal/routing/routing.go:55-75 | Returns min(max, table size) distinct contacts in strict XOR order; any nearer contact left out is at least r buckets above the target's, r being the radius at which it stopped. |
| NearSearch.SortByDist | internal/routing/routing.go:68-70 | A sorted permutation. |
| NearSearch.ScanCount | internal/routing/routing.go:60-67 | Every bucket within the radius is counted exactly once. |
| NearSearch.ClosestCorrect | internal/routing/routing.go:55-75 | Sorting and cutting what the loop collected gives the guarantee. |
| NearExact.SureIsNearer | internal/id/id.go:25-31 | A contact in the target's bucket, or above it at a bit where target and self differ, is nearer than every higher contact and every contact of the other buckets. |
| NearExact.UnsureIsFarther | internal/id/id.go:25-31 | A contact of any other bucket is farther than every contact above it and above the target's bucket. |
| NearExact.ExactlyWhen | internal/routing/routing.go:55-75 | Nothing nearer is left out if and only if no contact lies at the last radius or beyond, or the target's bucket and the scanned buckets above it at which target and self differ hold at least max contacts. |
| NearExact.ClosestExact | internal/routing/routing.go:55-75 | So nothing is left out when the target is self, when its bucket is the last, or when its bucket alone suffices. |
| NearSearch.ClosestMisses | internal/routing/routing.go:60-67 | In tables of a certain shape a search for one contact returns the farther of two. |
| NearExample.TableComesAbout | internal/routing/routing.go:46-53 | Such a table, which two contacts make by being seen. |
| NearExample.FartherReturned | internal/routing/routing.go:55-75 | Every answer to the search in it is the contact in the lower bucket, though the other one is nearer. |
| NearExample.AnswerExists | internal/routing/routing.go:60-67 | And the search does give that answer, with two rounds scanned. |
| Candidates.UniqAndSortByDist | internal/node/client.go:336-357 | The last contact of each non-zero ID and address, in XOR order, without the visited ones in front. |
| Candidates.TrimmedRepresents | internal/node/client.go:336-357 | So no non-zero contact is lost but to an entry with its ID and address, unless its address was visited. |
| Dialing.MarkBatch | internal/node/client.go:119-124 | Marks the unvisited addresses of a batch, each once. |
| Dialing.PursuedRound | internal/node/client.go:111-157 | A round of a value lookup keeps sight of every known contact: it was visited, is a candidate, or K others are as near. |
| Dialing.ShortlistMerged | internal/node/client.go:258-268 | Merging a reply into the shortlist keeps every known contact that was not visited. |
| Candidates.BestDist | internal/node/client.go:322-334 | The least distance, or 2^256 for none. |
| Lookup.Node.AskValues | internal/node/client.go:116-147 | Whatever the order of the replies, exactly the batch is dialed and its values and nodes are gathered. |
| Lookup.Node.Dial | internal/node/node.go:233-252 | A reply puts its sender into the table and clears its failures; a failure counts two, and at the threshold the peer is removed. |
| Dialing.NodesFromIs | internal/node/client.go:136-146 | The candidates gained are those of the peers that replied and, in a value lookup, had no value. |
| Lookup.Node.Get | internal/node/client.go:96-160 | An unexpired record answers by itself, with nobody dialed and nothing changed. Else the lookup ends against any replies; no address is dialed twice and every round dials a new one. Its value is the first non-empty one in the order of the replies, in the last round, and is then cached. Without one, no dialed peer had any, and every non-zero contact of the starting list or a reply was dialed, unless K others known are as near. |
| Lookup.GetAgain | internal/node/client.go:96-160 | A value that was found is found again until its record expires, and nobody is dialed for it. |
| Lookup.Node.GetClosest | internal/node/client.go:162-228 | Always goes on until every known contact was dialed or crowded out; the result is the value of an unexpired record and then the value of every dialed peer that had one, in order of the replies. The first value of the last round that brought any is cached. |
| Lookup.Node.IterativeFindNode | internal/node/client.go:230-281 | Dials the nearest of the starting list first, no address twice, and someone new in every round but the last. Returns at most want contacts, distinct, non-zero, in XOR order. Every non-zero contact of the starting list or a reply is returned, or was dialed, or want contacts as near are returned; fewer than want only when the last round learned of nothing nearer than its shortlist, and a round follows another only when fewer than want undialed contacts were known. The nearest one was never dialed if the last round heard anything. |
| Relay.Server.Attach | internal/relay/server.go:107-113 | The locked registration is the step of the protocol, and returns the connection it replaces. |
| Relay.Server.Detach | internal/relay/server.go:116-121 | A handler that ends removes its own registration only. |
| Relay.Server.GetAttached | internal/relay/server.go:186-194 | The lookup decides whether the client's handler goes on. |
| Relay.Server.TakeWaiter | internal/relay/server.go:131-142 | Taking the waiter is atomic, so that one response only finds it. |
| Relay.StepKeeps | internal/relay/server.go:100-184 | Every step of every handler keeps the invariant of the broker. |
| Relay.ClientSafety | internal/relay/server.go:100-184 | Over all interleavings a client is written at most one response, with its own request ID, and a payload in it was sent for that request by the one node it was delivered to, which had registered as the target. |
| Relay.AttachedIsLatest | internal/relay/server.go:107-121 | The table maps an ID to its last registration while that handler runs, and to nothing otherwise. |
| Relay.LookUpFinds | internal/relay/server.go:154-159 | A client is led to the last registration of its target while that handler runs, and is told of an error if and only if there is none. |
| Relay.ArrivalSorted | internal/relay/server.go:149-153 | A request without a target or an ID is answered by an error at once, and no other one is. |
| Relay.AnswerArrives | internal/relay/server.go:126-145 | A forwarded request was delivered; its client is written a payload if and only if the node has sent an answer that no handler still holds, and waits if and only if none was sent. |
| Relay.HandlerEnds | internal/relay/server.go:148-176 | The next step of every client's handler is always possible and brings it nearer to its end. |
| Relay.LateDeliveryDoubles | internal/relay/server.go:107-176 | From the start, for any node, client, target, request and payload, there is a run in which a forward fails, its answer comes all the same, and the answer and the error both go out. |
| DistStore.DistStore.Replicate | internal/service/dist_store.go:71-83 | The acknowledgements are those of the first willing peers other than self, in the order of the list: every other willing peer comes after all of them, and is left out only when there are as many as replicas. |
| DistStore.DistStore.PutBlock | internal/service/dist_store.go:37-100 | Success means at least one remote acknowledgement or a local copy with a direct pin; only local failures are reported; the local state changes exactly when the block is kept. |
| DistStore.PinnedStays | internal/storage/memory.go:171-178 | A block stored and pinned stays stored through every collection while it stays pinned, also through one that is marking when the run begins, if it has the block marked, on its stack, or not in its snapshot. |
| DistStore.LocalCopyStays | internal/service/dist_store.go:85-97 | The local copy of a placed block can be read at every point of every run that leaves its pin and its bytes, the run beginning at the same points of a collection. |
| DistStore.SnapshotBetweenFrees | internal/service/dist_store.go:85-97 | A collection whose snapshot falls between put and pin frees the block. |

## Left out

- The HTTP API, the command line, the desktop and web user interfaces, demos and benchmarks: no protocol of their own.
- TCP, JSON framing, deadlines, dialing through a relay and the whoami reply: a call is a reply or a failure.
- Cancellation by context: operations run to their end or to their own errors.
- BLAKE3, SHA-256, multibase and MIME detection: any hash, any target ID, any name.
- The text form of a CID in file names: RelPath is a stand-in with the one property used, that names do not clash.
- LevelDB and file system failures: a put, a rename and a removal succeed; crashes between them are modelled.
- Open files on disk: a put whose temporary file was renamed under it may write to either name, which allows more than
  a file system does.
- CBOR beyond the three shapes: indefinite lengths, tags, nulls, floats and the nesting limit are decoding errors here.
- Reads of one block twice in one fetch with different answers: a getter answers each CID one way throughout one fetch.
- Time inside an operation: each operation takes one instant, and a collection in the classes takes one for all its reads; GcProtocol.MarkOne takes one a block.
- A failed announcement: it is a parameter and does not undo the put, as in the code; withdrawing announcements is not modelled.
- The two short locks inside one local read: reading a block and renewing its soft pin are one step.
- Concurrent use of one disk store outside DiskCrash: the class takes its operations one at a time, as it has no lock.
- EndToEnd.AddAndPin: the method takes one instant; steps of others between its own are covered by AddedDuringCollection, over the blocks it puts.
- MemStore.MemStore.GetBlock: with no fetcher set, a local miss is a nil dereference in the source (internal/storage/memory.go:100); here it is the error NotFound.
- ParallelExact.SucceedsExactly: the number of steps is bounded for stored files only (StepLeft), and the bytes that overlapping leaves leave in the buffer can depend on the schedule.
- GcProtocol: one collection at a time; two collections that run side by side are not covered.
- The counter of visited leaves in Verify: it is never read.
- FetchParallel on a leaf shorter than its span: slicing within the capacity of the slice is not modelled, the step is a panic; no stored file reaches it.
- RoutingTable.RoutingTable.Closest: a negative max, which would panic, is outside its type.
- Lookup.Node.IterativeFindNode: a negative want, which would panic, is outside its type, and the unlocked reads of the visited map by other goroutines are not modelled.
- Relay.Server.Attach: an ID shorter than eight characters, on which the log line after it panics, is treated like any other.
- Several stores behind one builder: it puts into a memory store, with or without peers in front of it.
- The choice of blocks to keep locally: any function; the fractional share of the source has a threshold of zero.
- Background loops: refresh, revalidation, republishing and reproviding; the reprovide walk repeats the mark phase.
- Join, Stats and the textual Encode and DecodeCID of CIDs.
