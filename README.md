# Elijah cloudlet core in Dafny

This project models and verifies the core of the Elijah cloudlet system. The system builds a
virtual machine overlay: the memory and disk chunks that differ from a base VM image. It ships
them as a deduplicated, reordered list of delta items. A small FUSE file system serves cached
file attributes out of a Redis store. The model covers five pieces:

- **The FUSE cache front end** (`src/server/caching/fuse/fuse.c`, module `CacheFs`). It maps mount
  paths to store keys, parses the `key:value,...` attribute blob into a `struct stat`, and turns
  store results into FUSE return codes for getattr, readdir, open and read.
- **The Redis client** (`src/server/caching/fuse/redis.c`, module `Redis`). It covers the key
  formats, the connection check, the three commands, and which reply shapes fill a buffer, a
  list or a flag. The store is a map and replies are the Redis protocol reply kinds. The
  class `RedisHandler` holds the global handle's state.
- **The delta-list engine** (`elijah/provisioning/delta.py`). It is split into several modules:
  - `DeltaItems`: the delta item, its packed index, its wire codec and files of items.
  - `Sorting`: Python 2 ordering of hashes and a stable sort.
  - `DeltaSelf`: self deduplication.
  - `DeltaDiff`: matching against a base hash list or another delta list.
  - `DeltaDedup`: the per-item dedup chain.
  - `DeltaRecover`: recovery of raw data.
  - `DeltaDiscard`: discard filtering.
  - `DeltaReorder`: access-order reordering.
  - `DeltaResidue` and `DeltaMerge`: the residue diff and merge.
- **Memory snapshot helpers** (`elijah/provisioning/Memory.py`, module `Memory`). These are the
  seekable pipe over a queue of byte strings, page chunking, the per-page rule and stream
  handling of `_get_mem_hash`, the 44-byte hash-list records, and the RAM block header walk.
- **Disk helpers** (`src/cloudlet/Disk.py`, modules `Disk`, `DiskDelta` and `DiskLog`). These are
  sliding-window first-occurrence hashing of a base disk and its hash-list file, the disk
  delta list with TRIM and xray discards, and the `qemu` log parser.

Python lists of items that the source rewrites in place become sequences that the methods
return. Where the source finds or removes list elements by identity (`residue_merge_deltalist`,
`reorder_deltalist`, `discard_free_chunks`), the model works on positions in the original list.
A Python exception becomes the `Failure` side of a `Result`. A blocking `queue.get()` on an
empty queue becomes an explicit `blocked` outcome.

Several behaviours of the code are modelled as written, and the contracts state them:

- `redis.c` dereferences a NULL reply (`reply->type`) before `check_redis_return` tests it for
  NULL. A failed transport therefore crashes the process (`CallResult.Crashed`,
  `FsResult.Crash`).
- `do_getattr` has no return statement on its non-local branch (`fuse.c:143-146`). The model
  gives that path its own outcome, `NeedsFetch`.
- `do_read` compares and adds with `size_t` arithmetic. A sum `offset + size` that wraps past
  2^64 skips the clamp (`ReadResult.Overrun`).
- `SeekablePipe.read` compares `self.closed == True` instead of assigning it
  (`Memory.py:551`), so reading never closes the pipe.
- `unpack_stream` leaves `data` holding the 11 header bytes for a reference kind without a
  payload (`REF_ZEROS`).
- `get_index` packs `(offset << 1) | type`. This is injective only at even offsets: disk
  offsets 0 and 1 share index 2.
- `get_raw_data` refuses the last page of the base image (`offset + length < size` is strict).

These edge behaviours are modelled as the code has them.

## Model

| member | source | states |
|---|---|---|
| Redis.Respond | src/server/caching/fuse/redis.c:22-24 | EXISTS answers integer 1 or 0 by key presence; GET of a missing key answers nil, LRANGE of a missing key an empty array |
| Redis.ReturnCode | src/server/caching/fuse/redis.c:45-65 | the call returns EXIT_SUCCESS iff a reply object exists, whatever its type; a missing reply crashes (it was dereferenced before the NULL test) |
| Redis.AttrBuffer | src/server/caching/fuse/redis.c:138-142 | *ret_buf becomes exactly the reply string only for a non-empty string reply, otherwise it is untouched |
| Redis.ExistsFlag | src/server/caching/fuse/redis.c:118-124 | *is_exists is set from an integer reply (true iff it is 1) and untouched by any other reply |
| Redis.ListAfter | src/server/caching/fuse/redis.c:159-164 | an array reply appends every element's text, in order, after the existing list; any other reply leaves the list unchanged |
| Redis.RedisHandler.constructor | src/server/caching/fuse/redis.c:27-34 | the handler state holds the given handle, connection, store and link state |
| Redis.RedisHandler.Command | src/server/caching/fuse/redis.c:117 | redisCommand returns the store's reply while the link is up and NULL otherwise |
| Redis.RedisHandler.FileExists | src/server/caching/fuse/redis.c:110-127 | without a connection it returns EXIT_FAILURE and issues nothing; otherwise it issues exactly EXISTS path+α and its return code and flag follow the reply |
| Redis.RedisHandler.GetAttr | src/server/caching/fuse/redis.c:129-146 | without a connection it returns EXIT_FAILURE and issues nothing; otherwise it issues exactly GET path+α and sets the buffer from the reply |
| Redis.RedisHandler.GetReaddir | src/server/caching/fuse/redis.c:148-169 | without a connection it returns EXIT_FAILURE and issues nothing; otherwise it issues exactly LRANGE path+β 0 -1 and appends the array's elements in order |
| Redis.AbsentAttrSucceeds | src/server/caching/fuse/redis.c:45-65 | a path absent from the store still makes GET return success, with the buffer left as it was |
| Redis.KeysDistinct | src/server/caching/fuse/redis.c:22-24 | attribute keys and list keys never collide, and each key format is injective in the path |
| CacheFs.ConvertToRelpath | src/server/caching/fuse/fuse.c:98-113 | "/" maps to URL_ROOT alone; any other path maps to URL_ROOT followed by the path |
| CacheFs.RelpathInjective | src/server/caching/fuse/fuse.c:98-113 | distinct non-empty paths give distinct keys, and only "/" gives URL_ROOT itself |
| CacheFs.Stored | src/server/caching/fuse/fuse.c:70-87 | the guint64 value as each stat field stores it: time_t and off_t fields reinterpret it as signed 64-bit, mode/gid/uid keep its low 32 bits, exists stores value != 0 |
| CacheFs.Assign | src/server/caching/fuse/fuse.c:70-87 | each recognised key sets its own field and no other |
| CacheFs.ParseComponent | src/server/caching/fuse/fuse.c:60-69 | a component parses only if it has a second ':'-piece with a number in it and a known key before the first ':' |
| CacheFs.FoldSucceeds | src/server/caching/fuse/fuse.c:59-92 | parse_stinfo succeeds iff every comma-separated component parses |
| CacheFs.FoldLastWins | src/server/caching/fuse/fuse.c:59-92 | after a successful parse each field holds the value of the last component naming it; unnamed fields keep their incoming value |
| CacheFs.EmptyComponentFails | src/server/caching/fuse/fuse.c:60-63 | an empty component fails the parse |
| CacheFs.NoColonFails | src/server/caching/fuse/fuse.c:60-63 | a component without ':' fails the parse |
| CacheFs.UnknownKeyFails | src/server/caching/fuse/fuse.c:88-90 | an unrecognised key fails the parse |
| CacheFs.NoNumberFails | src/server/caching/fuse/fuse.c:65-69 | a value from which no number can be read (end == start) fails the parse |
| CacheFs.ExtraColonsIgnored | src/server/caching/fuse/fuse.c:60-65 | only the text between the first and the second ':' is the value |
| CacheFs.TrailingTextIgnored | src/server/caching/fuse/fuse.c:65-69 | text after the digits is ignored: "size:12abc" sets the size to 12 |
| CacheFs.TrailingCommaFails | src/server/caching/fuse/fuse.c:54-63 | a blob ending in a comma is rejected, because of the empty last component |
| CacheFs.Stat.constructor | src/server/caching/fuse/fuse.c:118 | a fresh stat buffer reads as all zeros |
| CacheFs.Stat.Clear | src/server/caching/fuse/fuse.c:124 | memset leaves every stat field 0 |
| CacheFs.AssignKey | src/server/caching/fuse/fuse.c:70-90 | the strcmp chain recognises exactly the nine keys and stores the value into that key's field, in place, leaving the buffer untouched otherwise |
| CacheFs.ParseStinfo | src/server/caching/fuse/fuse.c:46-95 | the in-place loop leaves the buffer and is_local exactly as the parse of the blob from the incoming buffer says |
| CacheFs.Getattr | src/server/caching/fuse/fuse.c:118-147 | -ENOENT iff not connected or the blob does not parse; 0 iff it parses with exists set; the missing-return outcome iff it parses without; a crash iff there is no reply; the stat buffer is the parse of the blob over a zeroed buffer |
| CacheFs.GetattrUnnamedZero | src/server/caching/fuse/fuse.c:124 | every stat field the blob does not name is 0 after a getattr that reached the blob |
| CacheFs.DoGetattr | src/server/caching/fuse/fuse.c:118-147 | do_getattr returns, and leaves in stbuf, what the getattr rule gives for the connection state and the GET reply of the path's attribute key |
| CacheFs.Readdir | src/server/caching/fuse/fuse.c:149-177 | "." and ".." come first; -ENOENT iff not connected; 0 iff connected with a reply, the names then being the list reply's elements in store order |
| CacheFs.FillNames | src/server/caching/fuse/fuse.c:163-167 | filler is called once per list name, in order |
| CacheFs.DoReaddir | src/server/caching/fuse/fuse.c:149-177 | do_readdir's outcome and filled names are the readdir rule's for the LRANGE reply of the path's list key |
| CacheFs.DoOpen | src/server/caching/fuse/fuse.c:179-188 | another path gives -ENOENT before the flags are looked at; then (flags & 3) != O_RDONLY gives -EACCES; otherwise 0 |
| CacheFs.DoRead | src/server/caching/fuse/fuse.c:190-207 | another path gives -ENOENT; a read copies a slice of the content starting at the offset, at most size bytes, and nothing from an offset outside it; a wrapped offset + size skips the clamp |
| CacheFs.DoReadCopiesMin | src/server/caching/fuse/fuse.c:199-206 | without wrap-around a read returns exactly min(size, len - offset) bytes of content from the offset, and none past the end |
| CacheFs.DoReadWraps | src/server/caching/fuse/fuse.c:199-202 | a huge size at a small offset wraps offset + size and overruns the served string |
| DeltaItems.Redirect | elijah/provisioning/delta.py:631-633 | rewriting an item into a reference keeps its type, offset, length and hash, and sets ref_id, data_len 8 and the target |
| DeltaItems.GetIndex | elijah/provisioning/delta.py:75-77 | the or with the type touches only the low four bits of offset << 1 |
| DeltaItems.IndexMemory | elijah/provisioning/delta.py:75-77 | a memory chunk's index is 2·offset + 1 |
| DeltaItems.IndexDiskEven | elijah/provisioning/delta.py:75-77 | a disk chunk at an even offset has index 2·offset + 2 |
| DeltaItems.IndexInjective | elijah/provisioning/delta.py:71-77 | get_index is injective over memory and disk items at even offsets |
| DeltaItems.IndexDiskCollision | elijah/provisioning/delta.py:75-77 | at odd offsets the packing collides: disk offsets 0 and 1 share index 2 |
| DeltaItems.Serialize | elijah/provisioning/delta.py:82-107 | get_serialized succeeds iff every field fits its struct format, and then writes 11 header bytes plus 8 + data_len for RAW/XDELTA or 8 for SELF/BASE_DISK/BASE_MEM |
| DeltaItems.Unpack | elijah/provisioning/delta.py:109-138 | an empty stream yields None; an item consumes at least its 11 header bytes and leaves a suffix of the stream |
| DeltaItems.UnpackBody | elijah/provisioning/delta.py:116-130 | the body read after a header leaves a suffix of the stream |
| DeltaItems.HeaderFields | elijah/provisioning/delta.py:86-89 | the "!QHc" header decodes back to offset, offset_len, delta_type and ref_id |
| DeltaItems.UnpackSerialized | elijah/provisioning/delta.py:82-138 | unpack_stream after get_serialized restores offset, offset_len, delta_type, ref_id and data (data_len for RAW/XDELTA); a REF_ZEROS item's data comes back as its 11 header bytes; the rest of the stream is left unread |
| DeltaItems.EncodeAll | elijah/provisioning/delta.py:149-151 | writing a list succeeds iff every item serialises |
| DeltaItems.ToFile | elijah/provisioning/delta.py:142-152 | an empty list raises; otherwise the file holds every item's encoding in order |
| DeltaItems.FromFile | elijah/provisioning/delta.py:154-164 | fromfile reads items until the stream is exhausted, or fails with the first error |
| DeltaItems.FileRoundTrip | elijah/provisioning/delta.py:142-164 | fromfile of what tofile wrote is the list of decoded items, in order |
| DeltaItems.Deduplicate | elijah/provisioning/delta.py:625-635 | returns true iff the hash is in the table and the item is RAW/XDELTA, and then redirects it to the entry's start; otherwise the item is unchanged |
| DeltaItems.DeduplicateIdempotent | elijah/provisioning/delta.py:625-635 | an item once deduplicated into a reference is left alone by any later table |
| Sorting.InsertBySorted | elijah/provisioning/delta.py:212 | insertion into a sorted list keeps it sorted |
| Sorting.SortBy | elijah/provisioning/delta.py:212 | list.sort returns a permutation of its input |
| Sorting.SortBySorted | elijah/provisioning/delta.py:212 | list.sort returns a list sorted by its key |
| Sorting.HashKeyAppend | elijah/provisioning/delta.py:212 | the flattened key of (hash, rest) orders like the Python tuple: by hash first, then by the rest |
| Sorting.HashKeyInjective | elijah/provisioning/delta.py:212 | distinct hashes (None included) have distinct keys |
| Sorting.HashLtTrichotomy | elijah/provisioning/delta.py:398 | Python 2's order on hashes is strict and total: exactly one of <, ==, > holds |
| Sorting.HashLeKey | elijah/provisioning/delta.py:389-390 | key order on hashes is Python 2's "less than or equal" |
| Sorting.HashLtTrans | elijah/provisioning/delta.py:398 | a chain of hash comparisons with a strict step is strict |
| DeltaSelf.RunStart | elijah/provisioning/delta.py:214-232 | the pivot of a position is the first item of its run of equal hashes |
| DeltaSelf.SelfDeltaAt | elijah/provisioning/delta.py:216-232 | the pass never changes an item's type, offset, length or hash |
| DeltaSelf.GetSelfDelta | elijah/provisioning/delta.py:201-234 | an empty list stays empty; otherwise every item of the list sorted by (hash, type, offset) is rewritten by the run rule |
| DeltaSelf.MarkRuns | elijah/provisioning/delta.py:214-232 | the loop with its moving pivot rewrites each item as the run rule says |
| DeltaSelf.MarkOne | elijah/provisioning/delta.py:217-232 | one pass of the loop rewrites the item as the run rule says and moves the pivot to where the item's run starts |
| DeltaSelf.PivotUntouched | elijah/provisioning/delta.py:230-232 | the first item of each run is left as it is |
| DeltaSelf.PivotIsFirst | elijah/provisioning/delta.py:212-214 | in the sorted list no item before the pivot has the pivot's hash |
| DeltaSelf.SelfRefersToFirst | elijah/provisioning/delta.py:216-224 | an item becomes REF_SELF iff it already was, or is RAW/XDELTA with an earlier equal hash; a rewritten item refers to the index of the first item with its hash |
| DeltaSelf.SelfDeltaPermutes | elijah/provisioning/delta.py:212 | the sorted list is a permutation of the input, sorted by (hash, type, offset) |
| DeltaDiff.FirstMatch | elijah/provisioning/delta.py:395-400 | the table entry the walk stops at is the first with the hash |
| DeltaDiff.MatchOneRedirects | elijah/provisioning/delta.py:403-412 | a RAW/XDELTA item sharing a hash with an entry is redirected to that entry's offset; any other item is kept |
| DeltaDiff.MatchAll | elijah/provisioning/delta.py:395-413 | the walk fails iff lengths are checked and some matched pair's offset_len differ; on success every item is matched on its own |
| DeltaDiff.MatchSorted | elijah/provisioning/delta.py:395-413 | the two-index while loop over hash-sorted lists computes exactly the per-item matching |
| DeltaDiff.TargetBelowRest | elijah/provisioning/delta.py:398-400 | skipping an entry below the current item skips no match of any later item |
| DeltaDiff.NoLaterMatch | elijah/provisioning/delta.py:403-413 | an item below the current entry has no match anywhere in the table |
| DeltaDiff.SortedByHash | elijah/provisioning/delta.py:389 | sorting by hash leaves the items sorted by hash |
| DeltaDiff.DiffWithDeltalist | elijah/provisioning/delta.py:378-415 | an empty list is returned untouched; an empty const list raises; otherwise both lists come back sorted by hash and the first is rewritten by the matching, or the length clash raises |
| DeltaDiff.DiffWithHashlist | elijah/provisioning/delta.py:418-449 | an empty list is returned untouched; otherwise the hash list comes back sorted by hash and the delta list sorted and rewritten, with no length check |
| DeltaDiff.MatchRewritesIff | elijah/provisioning/delta.py:403-413 | length and item identity are preserved; an item is rewritten iff it is RAW/XDELTA and some entry has an equal hash, and it is then redirected to ref_id with that entry's offset as its data |
| DeltaDiff.DiffRaisesOnLengthClash | elijah/provisioning/delta.py:403-408 | diff_with_deltalist raises exactly when a matched pair's offset_len differ; the hash-list walk never raises |
| DeltaDedup.ZeroTable | elijah/provisioning/delta.py:682-689 | unequal memory and disk chunk sizes raise; otherwise the table maps only the hash of chunk_size zero bytes, with start -1 |
| DeltaDedup.ChainItem | elijah/provisioning/delta.py:722-737 | a RAW/XDELTA item goes to the first of the zero, base memory, base disk and self tables holding its hash, else registers its index in the self table; any other item passes unchanged |
| DeltaDedup.DedupAll | elijah/provisioning/delta.py:722-738 | the chain over a stream of items puts out one item per item |
| DeltaDedup.ChainKeepsTableSound | elijah/provisioning/delta.py:730-737 | every self-table entry keeps naming the index of an earlier RAW/XDELTA item with that hash |
| DeltaDedup.SelfRefsPointBack | elijah/provisioning/delta.py:722-738 | every item the chain turns into a self reference points at the index of an earlier output item with the same hash that still carries data |
| DeltaDedup.ZeroPageDeduplicated | elijah/provisioning/delta.py:686-689 | a RAW page of zeros becomes a REF_ZEROS reference with data -1 |
| DeltaDedup.SecondCopyRefersToFirst | elijah/provisioning/delta.py:730-737 | of two copies of a page no base table holds, the first is registered and the second refers to the first's index |
| DeltaDedup.DedupState.constructor | elijah/provisioning/delta.py:651-680 | the counters and chunk lists start at zero and empty |
| DeltaDedup.DedupState.Process | elijah/provisioning/delta.py:722-742 | the item comes out as the chain makes it, the counter of its route goes up by one, and its offset is recorded under its type |
| DeltaRecover.RecoverData | elijah/provisioning/delta.py:564-593 | ZEROS gives chunk_size zero bytes; RAW needs bytes; SELF needs an already recovered index; an unknown ref_id raises |
| DeltaRecover.RecoverItem | elijah/provisioning/delta.py:559-605 | recovery succeeds iff the bytes are found and their length is offset_len, and then sets ref_id RAW and data to them |
| DeltaRecover.RecoveredIsRaw | elijah/provisioning/delta.py:595-605 | a recovered item is RAW, carries exactly offset_len bytes, and keeps its type, offset, hash and index |
| DeltaRecover.ZerosRecover | elijah/provisioning/delta.py:566-567 | a zero reference recovers to chunk_size zero bytes, and only when offset_len is chunk_size |
| DeltaRecover.BaseRecover | elijah/provisioning/delta.py:568-573 | a base reference recovers to base[data : data + chunk_size] of the image its kind names |
| DeltaRecover.BasePastEndFails | elijah/provisioning/delta.py:568-570 | a base reference reaching past the image's end reads a short slice and fails the length check |
| DeltaRecover.SelfRecover | elijah/provisioning/delta.py:574-581 | a self reference to an index not yet recovered raises; one to a recovered index copies its bytes |
| DeltaRecover.BadKindsFail | elijah/provisioning/delta.py:585-593 | an xdelta item neither memory nor disk, or any unknown ref_id, raises |
| DeltaRecover.RecoverUndoesBaseDedup | elijah/provisioning/delta.py:625-635 | a chunk deduplicated against base memory recovers to its own bytes |
| DeltaReorder.Reversed | elijah/provisioning/delta.py:842 | access_list.reverse() reverses the list |
| DeltaReorder.IndexDict | elijah/provisioning/delta.py:835-837 | delta_dict maps each index present to the last position holding it |
| DeltaReorder.RemovePermutes | elijah/provisioning/delta.py:851 | list.remove of a present element takes exactly one copy out |
| DeltaReorder.ToFrontPermutes | elijah/provisioning/delta.py:851-852 | remove then insert(0) puts the element first and keeps the multiset |
| DeltaReorder.StepPermutes | elijah/provisioning/delta.py:845-860 | a successful step keeps the list a permutation of the items |
| DeltaReorder.MoveChunk | elijah/provisioning/delta.py:846-860 | one access entry moves the named item, and then its reference, to the front, or raises the KeyError |
| DeltaReorder.RunPermutes | elijah/provisioning/delta.py:845-865 | the whole walk keeps the list a permutation, so the length check cannot fail |
| DeltaReorder.RunSnoc | elijah/provisioning/delta.py:845 | the walk processes the access entries one after another |
| DeltaReorder.StepPutsReferenceInFront | elijah/provisioning/delta.py:849-860 | a moved REF_SELF item ends up directly behind the item it refers to, both at the front |
| DeltaReorder.StepMissingReferenceFails | elijah/provisioning/delta.py:856-858 | a moved REF_SELF item whose reference is not in delta_dict raises KeyError |
| DeltaReorder.FirstAccessEndsFirst | elijah/provisioning/delta.py:842-853 | the first access-list entry is processed last, so its item (if not REF_SELF) ends up first |
| DeltaReorder.StepMovesToFront | elijah/provisioning/delta.py:849-853 | an accessed item that is not REF_SELF is moved to the front |
| DeltaReorder.BuildIndexDict | elijah/provisioning/delta.py:835-837 | the dict loop builds delta_dict |
| DeltaReorder.ReorderDeltalist | elijah/provisioning/delta.py:833-879 | the caller's access list comes back reversed; the result is the items in the order the walk leaves them, after the sort by (type, offset), or the KeyError |
| DeltaDiscard.Kept | elijah/provisioning/delta.py:1017-1027 | the kept items are exactly the items whose chunk is in neither discard table for its type, in order |
| DeltaDiscard.FreeChunksDiscarded | elijah/provisioning/delta.py:1010-1027 | discard_free_chunks raises iff chunk_size is 0 and the list is non-empty |
| DeltaDiscard.KeepMembers | elijah/provisioning/delta.py:1026-1027 | the surviving positions are those not removed |
| DeltaDiscard.PickKeep | elijah/provisioning/delta.py:1026-1027 | removing the collected items one by one leaves the kept items |
| DeltaDiscard.KeptTwice | elijah/provisioning/delta.py:1017-1027 | discarding twice keeps what discarding once keeps |
| DeltaDiscard.NoneDiscarded | elijah/provisioning/delta.py:1017-1027 | a list with nothing to discard comes back unchanged |
| DeltaDiscard.DiscardIdempotent | elijah/provisioning/delta.py:1010-1027 | applying discard_free_chunks to its own result changes nothing |
| DeltaDiscard.DiscardFreeChunks | elijah/provisioning/delta.py:1010-1027 | the collect-then-remove loops compute the filtered list, or the division error |
| DeltaDiscard.RemoveEach | elijah/provisioning/delta.py:1026-1027 | removing each collected position, in increasing order, leaves exactly the positions not collected |
| DeltaResidue.OldFor | elijah/provisioning/delta.py:1148 | the old item looked up has the new item's index |
| DeltaResidue.OldForDict | elijah/provisioning/delta.py:1135-1137 | the dictionary built by the loop answers the same lookups |
| DeltaResidue.NewPart | elijah/provisioning/delta.py:1147-1164 | a new item is kept iff its index is absent from the old list or its hash differs |
| DeltaResidue.BaseRead | elijah/provisioning/delta.py:1179-1181 | reading a chunk of base memory at the item's offset gives at most chunk_size bytes |
| DeltaResidue.Revert | elijah/provisioning/delta.py:1175-1195 | a full-chunk item reverts to REF_BASE_MEM with data = offset and data_len 8; a short one to a RAW copy of the base bytes with their hash |
| DeltaResidue.RevertedFrom | elijah/provisioning/delta.py:1168-1197 | the reverted part holds exactly the reversions of the old memory items the new overlay dropped; disk items are never reverted |
| DeltaResidue.ResidueContents | elijah/provisioning/delta.py:1147-1197 | the residue is the changed new items, then the reverted old ones; every dropped full-size memory chunk appears as a REF_BASE_MEM item |
| DeltaResidue.DiffOfSelfIsEmpty | elijah/provisioning/delta.py:1122-1205 | an overlay compared with itself leaves no residue |
| DeltaResidue.RevertRecovers | elijah/provisioning/delta.py:1175-1195 | a reverted item recovers to the base memory's bytes at its offset |
| DeltaResidue.KeepChanged | elijah/provisioning/delta.py:1147-1164 | the loop over the new list keeps what changed, and raises iff a matching old item has no hash |
| DeltaResidue.KeepOne | elijah/provisioning/delta.py:1148-1164 | one new item raises iff its old item has no hash, and is otherwise kept iff its index is new or its hash changed |
| DeltaResidue.KeptNext | elijah/provisioning/delta.py:1147-1164 | one more new item extends the kept part by itself exactly when it changed, and the loop raises at it exactly when its old item lacks a hash |
| DeltaResidue.RevertMissing | elijah/provisioning/delta.py:1168-1197 | the loop over the old list reverts the dropped memory items, and raises iff a short one is not at the end of base memory |
| DeltaResidue.RevertOne | elijah/provisioning/delta.py:1169-1197 | one old item is reverted iff it is a memory item the new list dropped, and raises iff that reversion finds a whole chunk of base memory |
| DeltaResidue.ResidueDiffDeltalists | elijah/provisioning/delta.py:1122-1205 | the method computes the residue diff |
| DeltaMerge.Find | elijah/provisioning/delta.py:1079 | list.index gives the first position holding the element |
| DeltaMerge.RefDictFails | elijah/provisioning/delta.py:1042-1045 | building reference_dict fails exactly when some REF_SELF item names an index no old item has |
| DeltaMerge.FindPivotFrom | elijah/provisioning/delta.py:1077-1084 | the pivot is the first referring item still in the result list |
| DeltaMerge.Repoint | elijah/provisioning/delta.py:1095-1102 | the later referring items still listed get the pivot's index as data, and nothing else changes |
| DeltaMerge.Repair | elijah/provisioning/delta.py:1066-1102 | the repair never changes the result list and keeps every item in its slot (type and offset); only reference fields move |
| DeltaMerge.RepairPivot | elijah/provisioning/delta.py:1086-1102 | the pivot takes over the replaced item's ref_id, data_len and hash, and the later referring items point at the pivot |
| DeltaMerge.MergeStep | elijah/provisioning/delta.py:1055-1107 | a new item is appended or replaces the old item with its index; it fails iff that old item is already gone |
| DeltaMerge.RunSurvivors | elijah/provisioning/delta.py:1055-1107 | an old item survives the walk iff no new item replaces it |
| DeltaMerge.RunFails | elijah/provisioning/delta.py:1055-1107 | the walk fails iff two new items share the index of an old item |
| DeltaMerge.MergeFails | elijah/provisioning/delta.py:1030-1119 | residue_merge_deltalist raises iff a REF_SELF old item names a missing index, or two new items share an old item's index |
| DeltaMerge.MergeFinal | elijah/provisioning/delta.py:1030-1119 | in the final state an old item is listed iff it is not overwritten |
| DeltaMerge.OverwrittenIff | elijah/provisioning/delta.py:1056 | an old item is overwritten iff some new item has its index |
| DeltaMerge.MergeLayout | elijah/provisioning/delta.py:1030-1119 | the result is the surviving old items in their original order, each in its old slot, followed by every new item in order |
| DeltaMerge.BuildRefDict | elijah/provisioning/delta.py:1042-1045 | the loop builds reference_dict |
| DeltaMerge.FindPivot | elijah/provisioning/delta.py:1077-1084 | the loop finds the pivot |
| DeltaMerge.RepointAll | elijah/provisioning/delta.py:1095-1102 | the loop repoints the later referring items |
| DeltaMerge.RepointKeys | elijah/provisioning/delta.py:1095-1102 | the pivot becomes a key of the reference dict exactly when some later referring item is still listed; no other key is added or lost |
| DeltaMerge.RepairReferences | elijah/provisioning/delta.py:1066-1102 | the method performs the repair |
| DeltaMerge.MergeOne | elijah/provisioning/delta.py:1055-1107 | the method performs one new item's step |
| DeltaMerge.ResidueMergeDeltalist | elijah/provisioning/delta.py:1030-1119 | the method computes the merge |
| Memory.ChunksFlatten | elijah/provisioning/Memory.py:96-97 | the chunks of a list put together are the list |
| Memory.ChunksShape | elijah/provisioning/Memory.py:96-97 | every chunk but the last has length n, and the last is non-empty and at most n long |
| Memory.Fill | elijah/provisioning/Memory.py:537-543 | the pull loop takes at most the queued messages, stops at the marker without taking it, and waits only on an empty queue |
| Memory.FillReachesTarget | elijah/provisioning/Memory.py:537-543 | unless the marker or an empty queue stops it, the loop reaches the target size |
| Memory.FillTakesOnlyWhatIsNeeded | elijah/provisioning/Memory.py:537-543 | each message taken was needed: the buffer was still short of the target |
| Memory.SeekablePipe.constructor | elijah/provisioning/Memory.py:529-534 | a new pipe has an empty buffer, offset 0, and is not closed |
| Memory.SeekablePipe.Append | elijah/provisioning/Memory.py:542-543 | the buffer grows by the message and its size stays its length |
| Memory.SeekablePipe.PullUntil | elijah/provisioning/Memory.py:537-543 | the buffer becomes the old buffer followed by the messages the pull loop takes, in order |
| Memory.SeekablePipe.PullOne | elijah/provisioning/Memory.py:538-543 | the marker ends the stream and leaves the buffer alone; any other message is appended to the buffer and its size; an empty queue blocks |
| Memory.SeekablePipe.Seek | elijah/provisioning/Memory.py:536-544 | seek pulls until the target, is closed by the marker, and moves to the target (any integer, negative included) even when the stream ended first |
| Memory.SeekablePipe.Read | elijah/provisioning/Memory.py:546-558 | read returns buffer[off : min(size, off + n)], at most n bytes, and exactly n when the stream has not ended and the offset is between 0 and the buffered size; it advances tell() by what it returned and never sets closed |
| Memory.PackRecord | elijah/provisioning/Memory.py:306 | "!qI32s" packs iff the start fits signed 64-bit and the length unsigned 32-bit, into 44 bytes |
| Memory.RecordRoundTrip | elijah/provisioning/Memory.py:289-306 | unpacking a packed record gives the entry back, its hash cut or padded to 32 bytes |
| Memory.RecordBytesRoundTrip | elijah/provisioning/Memory.py:289-306 | every 44-byte record unpacks to an entry that packs back to it |
| Memory.ExportHashList | elijah/provisioning/Memory.py:301-308 | export_to_file writes 44 bytes per entry and fails iff some entry does not pack |
| Memory.ImportHashList | elijah/provisioning/Memory.py:277-291 | import_hashlist reads one entry per 44 bytes and fails iff a record is cut short |
| Memory.HashListRoundTrip | elijah/provisioning/Memory.py:277-308 | importing what export wrote gives every entry back, in order |
| Memory.ExportToFile | elijah/provisioning/Memory.py:301-308 | the write loop produces the exported bytes |
| Memory.ImportFromFile | elijah/provisioning/Memory.py:277-291 | the read loop produces the imported list |
| Memory.GetRawData | elijah/provisioning/Memory.py:310-317 | the slice is returned only when offset + length < raw size (strict), otherwise None |
| Memory.PageRule | elijah/provisioning/Memory.py:125-166 | a page is skipped iff its hash is the base hash at its index; a changed free page is only counted when free memory is applied; otherwise it is emitted as a memory item at its offset with the page's length and hash; a RAW item carries the page's bytes, and an XDELTA item appears only when the base page can be read, with a patch no longer than the page |
| Memory.PageRecovers | elijah/provisioning/Memory.py:144-165 | an emitted page, recovered against the same base memory, gives back the page's bytes |
| Memory.UnchangedPageSkipped | elijah/provisioning/Memory.py:128-133 | a page whose hash is in the base list at its own index is never emitted |
| Memory.PageStreamEnds | elijah/provisioning/Memory.py:107-113 | the data messages taken come before the marker, which ends the stream |
| Memory.PageStreamCovers | elijah/provisioning/Memory.py:107-122 | the processed pages put together are the buffered bytes followed by the data messages taken |
| Memory.ShortMessageEndsScan | elijah/provisioning/Memory.py:107-122 | a message that does not fill the last page leaves one piece, and the loop stops after processing it |
| Memory.Emitted | elijah/provisioning/Memory.py:124-170 | at most one item is emitted per page |
| Memory.EmittedAreChangedPages | elijah/provisioning/Memory.py:124-170 | every emitted item is the page rule's item for a page of the stream at that page's offset |
| Memory.NextPiece | elijah/provisioning/Memory.py:109-122 | taking a message when fewer than two pieces remain, then popping one, follows the page stream |
| Memory.GetMemHash | elijah/provisioning/Memory.py:87-181 | unless it blocks, the loop emits the page rule's items for every page of the stream, then the success message, and returns the count of freed pages |
| Memory.ApplyPage | elijah/provisioning/Memory.py:124-169 | one page appends to the emitted items and to the freed count exactly what the page rule says for the page at ram_offset |
| Memory.RamBlocks | elijah/provisioning/Memory.py:197-202 | the block walk stops once the sizes read reach the total |
| Memory.RamInfo | elijah/provisioning/Memory.py:184-202 | the header must carry RAM_SAVE_FLAG_MEM_SIZE |
| Memory.RamBlocksRoundTrip | elijah/provisioning/Memory.py:195-202 | encoded (length byte, id, u64 size) records read back as id → size, up to the block that reaches the total |
| Memory.RamInfoRoundTrip | elijah/provisioning/Memory.py:184-202 | a header with the flag and the total masked to a 4096 multiple, followed by the blocks, yields their map |
| Memory.SeekToEndOfRam | elijah/provisioning/Memory.py:184-202 | the method computes the RAM block map |
| Disk.FullReadsClosed | src/cloudlet/Disk.py:78-80 | for any n, reading window_size bytes while they fit makes n // window_size full reads and leaves n % window_size unread; the hashing loop applies it to n = size - chunk_size, making (size - chunk_size) // window_size reads after the first window |
| Disk.WindowCovers | src/cloudlet/Disk.py:65-83 | with window_size <= chunk_size, window k holds the chunk_size bytes at offset k·window_size |
| Disk.SlideNext | src/cloudlet/Disk.py:78-82 | dropping window_size bytes and appending the next read gives the next window |
| Disk.Table | src/cloudlet/Disk.py:74-76 | hash_dic after n windows holds at most n entries |
| Disk.TableComplete | src/cloudlet/Disk.py:74-76 | every window hashed so far has its hash in the table |
| Disk.TableDistinct | src/cloudlet/Disk.py:74-76 | no hash is in the table twice |
| Disk.TableKeepsFirst | src/cloudlet/Disk.py:74-76 | each entry carries chunk_size and the offset of the first window with its hash |
| Disk.PackEntry | src/cloudlet/Disk.py:86-87 | "!QI%ds" packs iff offset and length fit, and writes the hash at its own length |
| Disk.WriteRecords | src/cloudlet/Disk.py:85-87 | the hash-list file is written iff every entry packs |
| Disk.Hashing | src/cloudlet/Disk.py:44-91 | a zero window size raises in the size division; a disk shorter than a chunk raises DiskError; a disk shorter than a window raises in the progress computation |
| Disk.HashingFileContents | src/cloudlet/Disk.py:58-91 | the file a successful hashing writes reads back as records that each carry chunk_size, a 32-byte hash and the offset of the first window with that hash, and it holds the hash of every window hashed |
| Disk.HashingSeesEveryWindow | src/cloudlet/Disk.py:68-83 | the windows hashed are every full window, the last ending within the final partial window's size of the end |
| Disk.HashlistRoundTrip | src/cloudlet/Disk.py:85-87 | base_hashlist reads back the written (offset, length, hash) triples |
| Disk.HashingRoundTrip | src/cloudlet/Disk.py:44-91 | base_hashlist of hashing's file is the first-occurrence table |
| Disk.TableRoundTrip | src/cloudlet/Disk.py:85-87 | the table written and read back is itself |
| Disk.WriteHashFile | src/cloudlet/Disk.py:85-87 | the write loop produces the file |
| Disk.HashDisk | src/cloudlet/Disk.py:44-91 | the method computes hashing's result |
| Disk.HashWindows | src/cloudlet/Disk.py:68-83 | the sliding loop builds the first-occurrence table and reads the disk to its last window's end |
| Disk.BaseHashlist | src/cloudlet/Disk.py:304-314 | the read loop parses the hash list |
| DiskDelta.ChunkData | src/cloudlet/Disk.py:235-236 | a chunk read gives at most chunk_size bytes, exactly those when the disk holds the whole chunk |
| DiskDelta.DiskItem | src/cloudlet/Disk.py:235-257 | every emitted item is DELTA_DISK at chunk·chunk_size with offset_len = len(data) and the data's hash; XDELTA iff the patch is strictly shorter, else RAW with the chunk's bytes |
| DiskDelta.DiskDeltas | src/cloudlet/Disk.py:205-257 | the loop emits at most one item per chunk |
| DiskDelta.CreateDiskDeltalist | src/cloudlet/Disk.py:173-266 | the method computes the delta list, and the statistics satisfy trimed == len(trimed_list) and xrayed == len(xrayed_list) |
| DiskDelta.VisitChunk | src/cloudlet/Disk.py:205-257 | one chunk updates the delta list, both lists and the overwrite counter as the chunk visit says, and each counter stays the length of its list |
| DiskDelta.TrimCheck | src/cloudlet/Disk.py:209-219 | a chunk is discarded by TRIM iff its trim time is set and later than its write; it is then appended to trimed_list, and otherwise counted as overwritten after trim when it has a trim time |
| DiskDelta.XrayCheck | src/cloudlet/Disk.py:221-227 | with a non-empty used_blocks_dict, a chunk is discarded by xray iff its first sector is not marked used, and is then appended to xrayed_list |
| DiskDelta.MakeItem | src/cloudlet/Disk.py:238-256 | the method builds the chunk's item |
| DiskDelta.AllChunksWithoutDiscard | src/cloudlet/Disk.py:229-232 | without apply_discard every chunk is emitted, in order |
| DiskDelta.ItemsFromKeptChunks | src/cloudlet/Disk.py:209-257 | every item comes from a chunk that is not skipped |
| DiskDelta.KeptChunksHaveItems | src/cloudlet/Disk.py:209-257 | every chunk not skipped has its item in the list |
| DiskDelta.TrimmedListExact | src/cloudlet/Disk.py:211-217 | trimed_list names exactly the chunks whose trim time is set and later than their write |
| DiskDelta.XrayedListExact | src/cloudlet/Disk.py:222-227 | with a non-empty used_blocks_dict, xrayed_list names exactly the chunks whose first sector is not marked used |
| DiskDelta.DiskItemRecovers | src/cloudlet/Disk.py:237-256 | an emitted disk item, recovered against the same base disk, gives back the chunk's bytes |
| DiskLog.CeilDiv | src/cloudlet/Disk.py:145-152 | int(ceil(a / b)) computed exactly |
| DiskLog.MarkRange | src/cloudlet/Disk.py:153-154 | exactly the chunk numbers in the range get the event time, and others are untouched |
| DiskLog.MarkChunks | src/cloudlet/Disk.py:153-155 | the inner loop marks the range |
| DiskLog.ApplyLine | src/cloudlet/Disk.py:122-155 | a DMA line succeeds iff chunk_size > 0 and its sector length equals chunk_size; a discard line iff chunk_size > 0; other lines change nothing; each kind touches only its own dict |
| DiskLog.ParseQemuLog | src/cloudlet/Disk.py:102-170 | a missing log gives two empty dicts |
| DiskLog.ReadQemuLog | src/cloudlet/Disk.py:102-170 | the outer loop over the lines computes the parse |
| DiskLog.DiscardMarksWholeChunks | src/cloudlet/Disk.py:142-155 | a bdrv_discard marks exactly the chunks lying wholly inside the discarded sectors |
| DiskLog.ParsedDiscards | src/cloudlet/Disk.py:119-155 | discard_dict holds exactly the chunks some TRIM line before the first empty line marks |
| DiskLog.LastTrimWins | src/cloudlet/Disk.py:142-155 | a marked chunk carries the time of the last line (before the first empty line) marking it |
| DiskLog.UnmarkedKept | src/cloudlet/Disk.py:142-155 | a chunk no TRIM line marks keeps the time it had in discard_dict |
| DiskLog.ParsedDmas | src/cloudlet/Disk.py:126-141 | dma_dict holds exactly the sectors of DMA lines at multiples of eight sectors |
| DiskLog.LastLineIgnored | src/cloudlet/Disk.py:119 | the last line of the log never changes the result |

## Left out

- The FUSE mount, loop and unmount, and the Redis connect, PING, close and mutex, are left out. The store is a map, and each call is atomic.
- sha256, xdelta (`tool.diff_data` / `tool.merge_data`) and LZMA are foreign code. sha256 and xdelta are function parameters; LZMA is not modelled. `Const.CHUNK_SIZE` and `Const.QUEUE_SUCCESS_MESSAGE` are parameters, because the configuration module is not part of this model.
- `_save_blob` and `divide_blobs` are not modelled: their blob cut depends on compressed sizes.
- The `with_hashvalue` serialisation path is not modelled. It reads a non-existent attribute (`self.hashvalue`, delta.py:105).
- `DeltaList.from_stream`, `from_chunk` and `tofile_with_footer` are not modelled. The first two are generators over `unpack_stream`, and `from_chunk` names an undefined variable.
- Multiprocessing and queue polling are not modelled: `Recovered_delta.run`, the `perform_dedup` polling loop and its bandwidth figures, and `ProcWorker`. Only the per-item chain is modelled.
- `DeltaList.statistics`, the counters kept only for logging, and all progress bars are not modelled.
- `reorder_deltalist_linear`, `reorder_deltalist_file` and `reorder_deltalist_random` are not modelled. They read files or random numbers and then call `reorder_deltalist`.
- The final index comparison of `reorder_deltalist` (delta.py:867-875) is not modelled. It compares two `None` values (`list.sort()` returns None), so it never fails.
- Memory.py's libvirt header parsing (`memory_util` is not part of this model), `_seek_string`, `_load_file` and the free page subprocess are not modelled. The free page map is a parameter. `recover_memory`, `hashing`, `get_modified` and `create_memory_deltalist` are not modelled either: they are file and process plumbing around the modelled loop.
- `pack_hashlist` and `_pack_hashlist` are not modelled. They build a list and drop it.
- `Disk.Hashing` writes the table in first-occurrence order. Python 2 writes `hash_dic.values()` in an unspecified dict order, so the model fixes one of the possible orders.
- `DiskDelta.CreateDiskDeltalist` visits the modified chunks in the order it is given. Python 2 iterates `modified_chunk_dict.keys()` in an unspecified order, so the model fixes one of them.
- `DiskLog.ParseQemuLog` takes log lines whose fields are already read. Event times are whole numbers rather than floats. `dma_dict` is keyed by sector number rather than by the float `sec_num * 512.0 / chunk_size`, which is one-to-one with it for a fixed chunk size.
- `recover_disk` is not modelled. It calls `Recovered_delta` with an incompatible argument list.
- `DeltaDiff.DiffWithDeltalist` returns new sorted lists and nothing else. When the length check raises (delta.py:406-408), the source has already sorted both caller lists in place (delta.py:389-390) and rewritten the items matched before the clash (delta.py:410-412); the model's failure result does not capture that state.
- `DeltaMerge.ResidueMergeDeltalist` returns the merged list as values. The source writes `ref_id`, `data_len`, `data` and `hash_value` into item objects shared with the caller's `old_deltalist` (delta.py:1090-1093, 1098), including a pivot that is later removed from the result; that change to the caller's objects is not captured.
- `DeltaReorder.ReorderDeltalist` returns the reordered list as a value. When a KeyError is raised, the source has already sorted the caller's `delta_list` in place (delta.py:840) and moved some of its items to the front (delta.py:851-859); the model's failure result does not capture that state.
- `DeltaDiff.MatchAll` keeps only the prefix of the length-clash message (`LENGTH_MISMATCH`); the two lengths the source formats into it (delta.py:406-408) are not kept.
- Strings in `Redis` and `CacheFs` are sequences of characters with no terminator. `strcmp`, `strtoull`, `g_strsplit` and `g_strndup` of `reply->str` stop at an embedded NUL byte; the model does not capture that truncation.
- `Memory.GetMemHash`, `Memory.SeekablePipe.Seek` and `Memory.SeekablePipe.Read` report `blocked` where the source would wait for ever on an empty queue.
- `CacheFs.DoRead` takes the served content as a parameter. The hard-wired string is `HELLO_STR`.
- `process_manager.py`, `CloudletCache.py`, the discovery clients, `cloudlet.py` and the profiling driver are outside the modelled core.
