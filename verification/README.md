# dataset-local: a verified model

dataset-local is an in-memory/on-disk key-value server with `GET`, `SET`, `SETEX` and `DEL`. Keys are
routed by hash to single-threaded shards. A shard keeps two append-only files (`cool.log` for values,
`backup.log` as the journal of its index), an index in RAM, a byte-bounded LRU cache and a TTL heap. Clients
multiplex many calls over one connection: every request carries the number of a client slot, and replies come
back in any order.

The project models that system and proves it against one specification, a map from keys to values with expiry
times (`TtlMap.Ideal`). `dafny verify dfyconfig.toml` checks all of it.

## How the parts fit

| file | models |
|---|---|
| `Prelude.dfy` | bytes, big-endian integers and the truncating casts |
| `Codec.dfy` | the frame codec and its streaming use |
| `Wire.dfy` | request payloads, credentials and replies, client side against server side |
| `Hashing.dfy` | mask routing, worker count and budget split |
| `Log.dfy` | the journal format, its replay, torn tails |
| `Disk.dfy` | the two buffered files of a shard, and what one append does to the order in which their bytes reach the OS |
| `DiskRun.dfy` | whole runs over the two files: appends, cold reads, flushes, and a process crash at any point |
| `ShardDisk.dfy` | the object that owns the files |
| `TtlMap.dfy` | the specification, one operation and whole runs |
| `Lru.dfy`, `Expiry.dfy` | the cache as a recency sequence, the heap as the sequence in which it empties |
| `Recovery.dfy` | the index rebuilt from a journal |
| `Store.dfy`, `Worker.dfy` | the five representations of a shard kept in step |
| `Shard.dfy` | a shard as a value: what each event does to it, what it answers and does to the files, and what whole runs come to |
| `Caching.dfy` | the cache over whole runs, in order and in bytes, and all caches against the memory limit |
| `State.dfy` | the shard's event loop over any schedule of batches and ticks |
| `Restart.dfy` | an orderly stop, or a process crash, and a new start |
| `Sharding.dfy` | splitting a run by key |
| `Server.dfy` | planning, the first frame, and one pass of the reader |
| `RustClient.dfy`, `NodeClient.dfy` | the two slot pools, and the Node client's parser |
| `Multiplex.dfy` | one connection end to end, as a transition system over the bytes in both directions |
| `NodeMatching.dfy` | the Node client on such a connection: its runs are runs of that system |
| `Sequential.dfy` | what the replies of all connections mean together |
| `WrittenOrder.dfy` | why a connection's calls may be read in the order they were written |

The main results, from the inside out:

1. A shard refines the map. `Workers.Worker` holds the source's fields. Each public method says what it does to
   `View()`, the shard as a value, and to `Entries()`, the map it stands for; sweeping, evicting, flushing and
   syncing leave what a reader can see as it was. Over every run the answers are those of the map
   (`ShardState.State.StartWorker`, `Shards.EventsTrack`).
2. The cache is LRU over runs. Through puts, hits, cold reads, deletes, expiry, sweeps and eviction, its keys are a
   prefix of the touched keys that the shard still holds (`Shards.EventsRecent`), in the order of their last touch
   (`Caching.OrderIsByLastTouch`). Its bytes are counted exactly and keep within the budget (`Caching.EventsCache`), those of all
   shards within MAX_MEMORY_MB (`Caching.ShardsWithinTotal`), and eviction takes no more than it must
   (`Lru.EvictionKeepsMost`).
3. The journal never outruns the data. In every state of every run, between two flushes or after a cold read, the
   journal on file points only at data on file, if and only if every append met its guard
   (`DiskRuns.InOrderIffGuarded`); it does as long as no batch needs more than 8192 journal bytes
   (`DiskRuns.FitsBufferInOrder`). The steps the event loop takes on the files are pinned one by one: an object keeps the
   trace of them, and `ShardState.State.StartWorker` says which they are.
4. A restart brings the live view back, if and only if each shadowed key is one that view already shows, for every
   restart of a shard and not just the first (`Restart.CleanRestart`, `Recovery.RecoveryExact`); which keys are shadowed can
   be told from the answered operations (`Restart.ShadowedByRun`). After a process crash at any point of such a run the
   shard holds exactly what a prefix of the writes amounts to, each key with the bytes its own SET wrote, and the prefix
   includes everything flushed before (`Restart.CrashRestart`, `Restart.CrashDuringRun`).
5. Every call gets its own answer, in any interleaving and under any chunking of the bytes in both directions
   (`Multiplex.StepKeepsInv`, `Multiplex.EachCallGetsItsOwnAnswer`, `Multiplex.EachCallIsToldWhatHappened`), for every payload that fits a frame; for the others
   the guard is exact (`Multiplex.OneRequestPerCall`). The Node client, with its own slot pool and parser, only ever makes
   steps of that system (`NodeMatching.TurnIsMoves`), so the same holds of its calls
   (`NodeMatching.NodeCallsGetTheirOwnAnswers`).
6. All of it together means one map: in every run, with any other connections on the same shards, all answers are
   those of one unsharded map that applies the operations one after another, in the order the shards applied them
   (`Sequential.RunsAreLinear`, `NodeMatching.NodeRunsAreLinear`), which respects real time (`Sequential.RunsRespectTime`,
   and across connections `Sequential.PointsDivideLog`). Equally, there is such an order in which a connection's calls
   come in the order their frames were written (`WrittenOrder.RunsKeepWrittenOrder`). The one difference allowed anywhere
   is a DEL of a key that has expired: it may answer "1".

## Where the code is narrower than its documentation

The code is modelled as it is; each of these carries the exact condition under which the promise is met.

- An expired record is skipped on replay (`src/shards/worker.rs:70-72`) and leaves no tombstone, although
  `src/shards/worker.rs:161-162` says none is needed and `PROTOCOL.md:94-95` that an expired key is never served.
  `SET k`, `SETEX k`, expiry, restart brings the first value back: `Recovery.ShadowedSetReturns`. The condition is
  `Recovery.Resurrects` of a key that is not live.
- A `DEL` of a key the shard no longer holds writes no tombstone either (`src/shards/worker.rs:148-151`), so `SET k`,
  `SETEX k`, expiry, `GET k`, `DEL k`, restart brings the first value back: `Restart.DelUndoneByRestart`. Told by what was
  written, the condition is `Store.Shadowed`: `Restart.ShadowedByRun`.
- A torn journal is reopened for append without being cut (`src/shards/disk.rs:61-64`). What is appended then is
  recovered exactly when there was no tail: `Log.AppendBehindTail`.
- Both files are behind a `BufWriter` of 8192 bytes that spills on its own, so the journal can reach the OS before
  the value it points at: `DiskFiles.OrderBroken`. The conditions are `DiskFiles.SetGuard` and `DiskFiles.DelGuard`. A restart
  from such files indexes a value that is not there, and the next append puts its own bytes there:
  `Store.GarbledAfterCrash`. A location is safe from later appends exactly as `Store.PinnedIffInside` says.
- The Rust client casts a payload's length to u16 and writes all of it (`clients/rust/src/lib.rs:139-147`), so a
  payload of 65536 bytes or more is not one request. `del` of a 65536-byte key is read as `del` of the empty key and
  the key as further frames; with a 65533-byte key it is refused, and the next frame read bears an id past any slot:
  `Multiplex.OverlongCallMisread`, `Multiplex.OverlongCallRefused`. The condition is `Multiplex.OneRequestPerCall`.
- `DEL` answers from the index (`src/shards/worker.rs:148`), so a key that has expired but was not collected
  gives "1", where `PROTOCOL.md:109-110` has a miss give "0": `TtlMap.StepRefines`. The condition is `TtlMap.StaleDel`.
- A decode error in the middle of a pass drops the operations already bucketed (`src/server.rs:156`):
  `Server.Reader.Pass`.
- The Rust pool builds its free list from `max_inflight as u32` (`clients/rust/src/lib.rs:85-88`): from 2^32 slots on it
  does not list them all, and with exactly 2^32 it is empty, so the first call panics: `RustClient.CastLosesAllIds`. The
  condition is `RustClient.FreshIsSound`.
- The Rust pool frees a slot for any response (`clients/rust/src/lib.rs:168-173`) and panics on an id past the last
  slot; it stays sound exactly when somebody waited: `RustClient.FinishKeepsSound`. The Node pool ignores such responses:
  `NodeClient.UnsolicitedIsIgnored`.
- A stored value that is itself the text `(nil)` reads back as a miss: `Wire.GetReplyRoundTrip`.
- The frame limit of 64 KiB (`src/common.rs:54-59`) can never be exceeded by a u16 length: `Codec.NeverTooLarge`.
- With more workers than bytes of `MAX_MEMORY_MB` the share per shard is 0, which means unlimited:
  `Hashing.CachesWithinTotal`.
- A Node call whose key fits its u16 but whose payload exceeds 65535 bytes throws after it has parked itself
  (`clients/node/dataset-client.mjs:143-150`), so its slot stays taken: `NodeClient.DatasetClient.SendFrame`. A key of more than
  65535 bytes throws in the encoder before a slot is asked for.

## Model

| member | source | states |
|---|---|---|
| Prelude.MostSignificantFirst | src/common.rs:51-52 | Numbers on the wire and in the files have their most significant byte first |
| Codec.DecodedIsEncoding | src/common.rs:34-73 | A decoded frame, put back through the encoder, is byte for byte what was consumed; its fields fit their widths |
| Codec.NeverTooLarge | src/common.rs:54-59 | The size check never rejects: no u16 length exceeds 64 KiB |
| Codec.RefusedHeaders | src/common.rs:40-49 | With a whole head there, the server refuses exactly the first bytes other than 1, 3, 4 and 5, naming that byte; nothing else is refused, and the clients refuse nothing |
| Codec.WaitsForWhole | src/common.rs:37-62 | With a whole head there, the server waits for more bytes if and only if it has a proper prefix of some frame's encoding |
| Codec.DecodeOfEncode | src/common.rs:34-85 | A frame followed by anything decodes to itself and leaves the rest |
| Codec.FrameRoundTrip | src/common.rs:78-85 | A frame survives encode and decode if and only if its payload is under 65536 bytes (the length cast is lossless) |
| Codec.DecodeStable | src/common.rs:34-73 | Bytes that arrive later never change a frame or an error already decided |
| Codec.DrainIsParsed | src/server.rs:150-156 | Any bytes are read as frames whose encodings come first and a rest that begins with no frame; there is an error if and only if the rest begins with what is refused, and then that one |
| Codec.OneWayToParse | src/server.rs:150-156 | There is no other reading of the bytes with these properties |
| Codec.DrainSplit | src/common.rs:34-73 | Parsing in two arrivals equals parsing their concatenation |
| Codec.ChunkingInvisible | src/common.rs:34-73 | Any two ways to cut a byte stream give the same frames, the same first error and the same residue |
| Codec.FramesSurviveAnyChunking | src/common.rs:34-85 | Encoded frames come out as exactly those frames under any chunking |
| Codec.CarriesDecode | src/common.rs:34-85 | On a connection that carries encoded frames, whatever has arrived, the decoder never errs and yields the first frame sent |
| Codec.FrameReader.Decode | src/common.rs:34-73 | Takes exactly one frame's encoding off the front of the buffer, or leaves the buffer as it was |
| Codec.FrameReader.Feed | src/server.rs:150-156 | One arrival yields every whole frame up to the first error, and the buffer keeps exactly the unconsumed bytes; the connection fails if and only if those begin, with a whole head there, with a byte other than 1, 3, 4 and 5, and that byte is reported |
| Wire.ParsedIsEncoding | src/utils.rs:55-105 | Whatever parses re-encodes to what was parsed; only GET and DEL may be followed by ignored bytes |
| Wire.ParsesExactly | src/utils.rs:55-105 | The parser accepts exactly the client encodings of an operation, as exactly that operation |
| Wire.RefusalCauses | src/utils.rs:55-105 | Each way of refusing a payload happens for exactly the payloads it is meant for, told by their bytes: empty, op code not 1 to 4, no room for the key length, key cut short, fewer than four ttl bytes |
| Wire.PayloadRoundTrip | clients/rust/src/lib.rs:188-195 | Encode then parse is the identity if and only if the key length fits its u16 |
| Wire.RequestRoundTrip | clients/rust/src/lib.rs:112-151 | Both layers recover exactly the operation and the slot id, if and only if the payload fits the frame |
| Wire.ParsedIsStorable | src/utils.rs:55-105 | Every parsed operation has key, value and ttl within the widths the log and the replies cast to |
| Wire.CredentialsRoundTrip | src/server.rs:193-202 | Handshake credentials survive client encoding, framing and `parse_credentials` if and only if they fit the frame |
| Wire.CredentialsMeaning | src/server.rs:193-202 | Which credentials any handshake payload stands for; one too short for what it announces stands for two empty ones |
| Wire.GetReplyRoundTrip | clients/rust/src/lib.rs:98-105 | The client reads back what the shard found, hit or miss, if and only if the value is not the text of a miss |
| Hashing.MaskIsModulo | src/hashing.rs:11-17 | Masking with `n - 1` is the remainder by `n` for every 64-bit hash, if and only if `n` is a power of two |
| Hashing.RouteIsRemainder | src/hashing.rs:11-17 | With a power-of-two worker count a key goes to its 64-bit hash modulo that count |
| Hashing.ShardsPartitionHashes | src/hashing.rs:11-17 | Every shard has hashes that reach it, and two keys share a shard if and only if their hashes agree modulo the worker count |
| Hashing.NextPowerOfTwoLeast | src/main.rs:27-32 | The worker count is the least power of two not below the requested one |
| Hashing.ShareIsLargest | src/main.rs:36-41 | The share is the largest number of bytes that every worker can be given out of MAX_MEMORY_MB |
| Hashing.CachesWithinTotal | src/main.rs:36-41 | Caches within nine tenths of their share stay within MAX_MEMORY_MB together; the share is 0 exactly when there are more workers than bytes |
| Log.ReadRecord | src/shards/disk.rs:149-178 | Reading one record field by field returns what the format says, or stops on a short read or an unknown op code |
| Log.ReplayBackup | src/shards/disk.rs:145-181 | The replay loop returns the records the format defines, in order |
| Log.ParseOfEncode | src/shards/disk.rs:93-99 | A record followed by anything parses to itself |
| Log.ParsedIsEncoding | src/shards/disk.rs:157-175 | A parsed record re-encodes to exactly the bytes consumed |
| Log.TornRecord | src/shards/disk.rs:143-144 | No proper prefix of a record reads as a record |
| Log.ReplayOfLog | src/shards/disk.rs:143-181 | With nothing torn, replay returns exactly what was appended |
| Log.ReplayAppend | src/shards/disk.rs:143-181 | Behind whole records, replay goes on with whatever follows |
| Log.TornReplay | src/shards/disk.rs:143-181 | Cut anywhere, an encoded log replays to the longest prefix of records that fits in the bytes left |
| Log.ReplayIsPrefix | src/shards/disk.rs:143-181 | For any bytes at all, what replay returns is the encoding of a prefix of them, followed by something unreadable |
| Log.AppendBehindTail | src/shards/disk.rs:61-64 | Records appended after reopening are all recovered, if and only if the file had no unreadable tail |
| DiskFiles.SetKeepsOrder | src/shards/disk.rs:78-102 | `append_set` leaves every complete journal SET pointing inside the flushed value log, if and only if the guard on buffer fill holds |
| DiskFiles.DelKeepsOrder | src/shards/disk.rs:104-115 | The same for `append_del` |
| DiskFiles.OrderBroken | src/shards/disk.rs:78-102 | An 8192-byte key with a one-byte value on a fresh shard puts a journal record in the file before its value |
| DiskFiles.FlushedCoolCovers | src/shards/disk.rs:117-141 | Once the value log is flushed (a cold read, or between the two flushes) the journal on file points only at data on file |
| ShardDisk.Disk.Open | src/shards/disk.rs:44-75 | Replays the journal and reopens both files as they are, untruncated |
| ShardDisk.Disk.AppendSet | src/shards/disk.rs:78-102 | The returned offset is where the value lies; earlier bytes are untouched; the journal gains exactly that record; the counted length stays true if and only if the casts lose nothing; the journal stays behind the data if and only if the guard held |
| ShardDisk.Disk.AppendDel | src/shards/disk.rs:104-115 | Both files gain the tombstone; the counted length stays true if and only if the cast loses nothing; the journal stays behind the data if and only if the guard held |
| ShardDisk.Disk.ReadAt | src/shards/disk.rs:119-124 | Reads exactly the bytes at the location, or fails past the end; the content is unchanged and the journal is behind the data afterwards |
| ShardDisk.Disk.Flush | src/shards/disk.rs:127-131 | Empties both buffers in the safe order, changing no content |
| DiskRuns.NextInOrder | src/shards/disk.rs:78-141 | One step (append, cold read, either flush) keeps the journal behind the data if and only if it is not an unguarded append |
| DiskRuns.InOrderIffGuarded | src/shards/disk.rs:78-141 | Every state of a run has the journal behind the data if and only if every append met its guard |
| DiskRuns.FitsBufferInOrder | src/shards/state.rs:39-48 | If never more journal bytes than the buffer holds are appended between two flushes, every append is guarded and every state is in order |
| DiskRuns.CrashInside | src/shards/disk.rs:78-115 | A crash in the middle of a guarded append, after any piece written to either file, leaves a journal that points only at data on file |
| DiskRuns.CrashAnywhere | src/shards/disk.rs:78-141 | A crash after any step of a guarded run does so too, and the journal on file still covers what was written before any earlier flush |
| DiskRuns.FlushedSurvives | src/shards/disk.rs:126-141 | What replay could read at one point it can read at every later one; right after a flush that is everything |
| DiskRuns.WrittenByRun | src/shards/disk.rs:78-124 | Journal and value log together always say what was written, in order, with the values |
| Lru.PrefixKept | src/shards/worker.rs:95-111 | The cache stays a prefix of the recency order through drops and touches of any key |
| Lru.WeightOfDrop | src/shards/worker.rs:107-111 | Removing a key lowers the exact weight by its own size and nothing else |
| Lru.WeightIsFootprint | src/shards/worker.rs:43-45 | The count kept for the cache is all its key bytes, all its value bytes and 130 for each entry |
| Lru.EvictionKeepsMost | src/shards/worker.rs:207-225 | Eviction leaves the cache alone without a budget or below nine tenths of it; otherwise it leaves exactly the longest most-recent prefix of at most eight tenths, in bytes |
| Lru.NewestSurvives | src/shards/worker.rs:207-225 | The most recent entry survives eviction if and only if there is nothing to evict or it fits the low mark by itself |
| Lru.LongestIsLongest | src/shards/worker.rs:207-225 | What eviction keeps is the longest most-recent prefix within the low mark, and the only such prefix |
| Expiry.SweepProgress | src/shards/worker.rs:189-202 | A sweep clears due entries up to its limit, also when more have fallen due meanwhile |
| Expiry.TicksClearDue | src/shards/state.rs:46-49 | With D entries due and nothing pushed, D/256 ticks (rounded up) leave none of them |
| TtlMap.StepRefines | src/shards/worker.rs:115-202 | One operation keeps the live views of shard and ideal map equal; the replies are equal if and only if it is not a DEL of a stale entry |
| TtlMap.StepTracks | src/shards/worker.rs:115-202 | A shard that holds nothing the ideal map never held goes on doing so; its reply can differ only for a DEL of a key that the ideal map, too, knows as expired |
| TtlMap.RunOfKey | src/shards/state.rs:35-38 | A run seen from one key is the run of that key's operations alone, replies included |
| TtlMap.LastWriteWins | src/shards/worker.rs:115-156 | After any run a key is there if and only if the last operation on it that is no GET is a write, with that write's value and expiry |
| TtlMap.AnswersInText | PROTOCOL.md:104-112 | What the specification answers, in the protocol's own texts |
| Recovery.RecoveryExact | src/shards/worker.rs:50-91 | For every journal, every index that follows it and every start time, the rebuilt index is the live one if and only if each shadowed key is already shown |
| Recovery.RecoveredKey | src/shards/worker.rs:67-89 | The same key by key: a live entry is rebuilt as it is, and of the others exactly the shadowed ones come back |
| Recovery.RecoveryOfApplied | src/shards/worker.rs:50-91 | For an index that was built by applying the journal itself, exact if and only if nothing is shadowed |
| Recovery.FollowsRebuilt | src/shards/worker.rs:67-89 | Whatever the journal holds, the rebuilt index is consistent with it, so later restarts are covered too |
| Recovery.ShadowedSetReturns | src/shards/worker.rs:70-72 | SET, SETEX, expiry, restart: the first value is back |
| Recovery.FollowsDrop | src/shards/worker.rs:161-167 | Dropping expired keys without a tombstone keeps the index consistent with the journal from then on |
| Store.AppendsDisturbNothing | src/shards/disk.rs:78-102 | Later appends leave every existing location and the map it stands for as they were |
| Store.CachedPut | src/shards/worker.rs:143-144 | Caching a value and evicting keeps the cache a prefix of the recency order that agrees with the log |
| Store.CachedHit | src/shards/worker.rs:169-172 | A cache hit returns what the log holds at the key's location |
| Store.QueuedPop | src/shards/worker.rs:196-200 | Popping a due entry keeps every indexed expiry queued, whether the entry was current or a stale duplicate |
| Store.StepWrite | src/shards/worker.rs:124-145 | A write keeps index, cache, recency, TTL queue and log in step |
| Store.RestartRecovers | src/shards/worker.rs:50-91 | From a complete journal a restart brings back exactly the live view, if and only if each shadowed key is one it shows |
| Store.RebuiltIsRecovered | src/shards/worker.rs:50-91 | A rebuilt shard holds, for every key, the very bytes written with the record it comes from |
| Store.CrashKeepsPrefix | src/shards/disk.rs:143-181 | What a crash leaves on file rebuilds to a prefix of what was written |
| Store.RebuiltLocated | src/shards/worker.rs:67-89 | A journal whose values are all in place rebuilds an index whose locations are all readable |
| Store.ShadowedIsResurrected | src/shards/worker.rs:67-89 | A key comes back at a restart if and only if, among all that was written, an unexpired SET of it is followed by expired ones and nothing else of that key |
| Store.PinnedIffInside | src/shards/disk.rs:119-124 | Later appends cannot change what a location reads if and only if it is empty or lies inside the value log |
| Store.GarbledAfterCrash | src/shards/disk.rs:78-102 | When the journal got ahead of its value, a restart indexes bytes that are not there, and after the next append the old key reads the op code of that record |
| Workers.Worker.constructor | src/shards/worker.rs:50-91 | Starting from any two files gives the fold of the replayed journal; the shard is valid if and only if every location is inside the value log; its journal is complete if the file has no torn tail |
| Workers.Worker.CacheInsert | src/shards/worker.rs:95-105 | The key becomes the most recent; `cache_bytes` grows by key, value and 130 bytes, less those of the entry replaced, and is the cache's exact size in bytes |
| Workers.Worker.CacheRemove | src/shards/worker.rs:107-111 | The key leaves the cache; `cache_bytes` falls by the bytes of its entry plus 130 and stays the exact size, so no subtraction saturates |
| Workers.Worker.Set | src/shards/worker.rs:115-117 | The map gains the value with no expiry; cache and recency as for a touch, then eviction |
| Workers.Worker.SetEx | src/shards/worker.rs:119-122 | The map gains the value with the absolute expiry |
| Workers.Worker.Write | src/shards/worker.rs:124-145 | All five representations take the new value together; the files take exactly that append, and the journal stays behind the data if and only if the guard held |
| Workers.Worker.Delete | src/shards/worker.rs:147-156 | The key is gone from all of them; the answer is its physical presence, and only then is a tombstone written; the journal stays behind the data if and only if none was or the guard held |
| Workers.Worker.Get | src/shards/worker.rs:158-186 | Exactly the live value, from cache or log; an expired entry is dropped; nothing else in the map changes; a cold read flushes the value log, which puts the journal behind the data |
| Workers.Worker.ExpireDue | src/shards/worker.rs:189-202 | Map, cache, recency and queue are those of the pure sweep: the due prefix of the queue up to the limit, and exactly the keys it removes leave cache and recency; only expired entries go; a sweep that stops early leaves no expired entry |
| Workers.Worker.PopDue | src/shards/worker.rs:194-201 | A popped entry takes its key out of index, cache and recency if it is still that key's expiry, and changes nothing but the queue otherwise |
| Workers.Worker.EvictToBudget | src/shards/worker.rs:207-225 | Changes the cache only: nothing without a budget or below `budget/10*9` bytes; otherwise what is left is a most-recent prefix of at most `budget/10*8` bytes that one entry more would exceed |
| Workers.Worker.EvictLoop | src/shards/worker.rs:208-224 | The loop itself, by the same marks; `pop_lru` is never asked of an empty cache |
| Workers.Worker.FlushOs | src/shards/worker.rs:227-231 | Nothing the shard stands for changes; both buffers are empty and the journal is behind the data |
| Workers.Worker.Fsync | src/shards/worker.rs:233-237 | The same for the flushes of `fsync` |
| Workers.SweepResult | src/shards/worker.rs:189-202 | What popping any number of due entries does to the map: live view unchanged, complete when all due entries were popped |
| Shards.OpIsActual | src/shards/worker.rs:115-186 | Whatever the budget, cache and queue, one operation does to the map, and answers, what the shard-side semantics says |
| Shards.SweepIsInvisible | src/shards/worker.rs:189-202 | A sweep takes only what has expired |
| Shards.TickCollects | src/shards/state.rs:46-49 | One tick takes 256 queue entries, or all that are due if they are fewer; with no more than 256 due it leaves no expired key |
| Shards.ItemsTrack | src/shards/state.rs:32-38 | The operations of a batch are answered as the ideal map answers them, and the shard goes on tracking it |
| Shards.EventsTrack | src/shards/state.rs:24-52 | The same over any run of batches and ticks |
| Shards.EventsSteps | src/shards/state.rs:24-52 | The steps of a run on the files write exactly what its answers say, in order, and stay within the journal buffer between flushes if every batch does |
| Shards.EventsRecent | src/shards/worker.rs:95-225 | The touched keys after a run are those the run itself touched (SET, SETEX, GET hits, less DEL), most recent first, that the shard still holds |
| Caching.OrderIsByLastTouch | src/shards/worker.rs:95-186 | The recency order of a run is that of each key's last SET, SETEX or GET hit, latest first, and its keys are those touched and not deleted since |
| Caching.OpCaches | src/shards/worker.rs:115-186 | Every operation keeps the cache a prefix of the touched keys with their stored values, within nine tenths of the budget in bytes; without a budget it leaves nothing out |
| Caching.NewestIsCached | src/shards/worker.rs:143-184 | What was just written or read back cold is the most recent cached entry if and only if there is nothing to evict or it fits the low mark by itself |
| Caching.EventsCache | src/shards/worker.rs:95-225 | The same over any run of batches and ticks; without a budget every touched key still held is cached |
| Caching.ShardsWithinTotal | src/main.rs:36-41 | Whatever the shards are asked to do, all keys, values and entries of all caches together stay within MAX_MEMORY_MB, unless there are more shards than bytes |
| ShardState.State.Apply | src/shards/state.rs:54-73 | One operation does to map, cache, recency and queue, and answers, exactly what the value model says; the files take one append for a write and for a DEL that answers 1, one cold read for a hit that was not cached, and nothing else |
| ShardState.State.ApplyBatch | src/shards/state.rs:32-43 | Every operation is answered once under its own id, in order, as the ideal map answers (only a DEL of an expired key may answer "1"); the steps on the files are one per operation as above and then the two flushes; the recency is that of the operations; if their journal bytes fit the buffer, the journal is behind the data after each step |
| ShardState.State.OnTick | src/shards/state.rs:46-49 | A tick flushes both files and sweeps 256 queue entries; with no more than 256 due it leaves no expired key; cache and recency lose exactly what the sweep removes; nothing a reader can see changes |
| ShardState.State.StartWorker | src/shards/state.rs:24-52 | Over any schedule of batches and ticks the shard answers as the ideal map does (only a DEL of an expired key may answer "1") and ends with its live view; the cache is a prefix of the run's own recency order cut to what is still held; the steps on the files are pinned, they write what the answers say, and the journal is behind the data after each of them if and only if every append met its guard, which it does if no batch exceeds the buffer |
| ShardState.State.IdleTicks | src/shards/state.rs:46-49 | With D queue entries due and no messages, D/256 ticks (rounded up) leave no key that had expired when they began, and remove only expired ones |
| ShardState.EveryReplyArrives | src/common.rs:78-85 | Every reply of a valid shard fits its response frame, so the client decodes exactly that reply |
| Restart.CleanRestart | src/shards/worker.rs:50-91 | After an orderly stop the new shard has the old live view if and only if each shadowed key is one it showed; its journal is complete again in any case |
| Restart.CrashRestart | src/shards/disk.rs:126-181 | After a process crash at any point where the journal is behind the data, the new shard holds exactly what a prefix of the writes amounts to, values included |
| Restart.CrashDuringRun | src/shards/state.rs:24-52 | After any number of steps of a run that stayed in order such a crash is possible, and the prefix includes everything written before any flush completed by then |
| Restart.ShadowedByRun | src/shards/worker.rs:67-89 | After a run, the keys a restart brings back can be told from what was written before and what the answered operations wrote |
| Restart.DelUndoneByRestart | src/shards/worker.rs:147-156 | SET, SETEX, expiry, GET, DEL, restart: the first value is back, although the DEL was answered |
| Sharding.ShardingPreservesRun | src/server.rs:220-244 | Shards that each apply their share, in any interleaving, hold together what one map holds after the arrival-order run |
| Sharding.ShardingPreservesReplies | src/server.rs:152-183 | The replies to each key's operations are those of the arrival-order run |
| Sharding.SameReplies | src/server.rs:152-183 | A tagged reply comes out of some shard if and only if the arrival-order run gives it |
| Server.RequestReachesShard | src/server.rs:205-244 | A client's operation reaches the shard of its key as it was sent |
| Server.OnlyRequestsReachShards | src/server.rs:205-244 | A frame reaches a shard if and only if it is a request that encodes an operation, and then the shard of its key |
| Server.RefusedRequest | src/server.rs:205-210 | A request is refused if and only if its payload encodes no operation; each of the five texts is given exactly to the payloads it is meant for, told by their bytes; it begins with "ERR " and is no answer a shard gives |
| Server.OtherFramesAreTold | src/server.rs:211-217 | A heartbeat is told "1" whatever it carries; a late handshake and a response are told their own texts |
| Server.DecimalReads | src/utils.rs:89 | The number in an unknown-op text reads back as the op code |
| Server.ImmediateFits | src/server.rs:205-218 | What the reader answers itself fits a response frame |
| Server.PlannedIsStorable | src/server.rs:205-244 | No decoded frame can make a shard store what the log or a reply would truncate |
| Server.LoginDecides | src/server.rs:87-122 | The handshake admits exactly the configured credentials, or anyone when none are configured; any other first frame is turned away |
| Server.GreetDecides | src/server.rs:87-125 | Any first frame at all: let in exactly when it is a handshake that stands for the configured credentials, or for any when none are; told "OK" exactly then, and otherwise one of two texts that begin with "ERR " |
| Server.EachFrameOnce | src/server.rs:152-168 | Under every request id there are exactly as many immediate replies and bucketed operations together as there were frames |
| Server.ShareMember | src/server.rs:152-166 | What is bucketed for a shard is exactly what some frame asked of it, under that frame's id |
| Server.Reader.Pass | src/server.rs:152-183 | Without an error each shard is sent its share in decode order and the groups are empty again; with one, earlier immediates were answered and no operation of the pass is sent |
| Server.Reader.Dispatch | src/server.rs:168-182 | Each non-empty group becomes one batch at the end of what its worker was sent |
| RustClient.PermitMeansFreeSlot | clients/rust/src/lib.rs:131-134 | In a sound pool a free id exists if and only if fewer slots are occupied than exist |
| RustClient.FreshIsSound | clients/rust/src/lib.rs:85-88 | A new pool is sound if and only if its size survives the cast to u32 |
| RustClient.CastLosesAllIds | clients/rust/src/lib.rs:85-88 | With 2^32 slots no id is free though none is in use |
| RustClient.Slots.constructor | clients/rust/src/lib.rs:81-89 | The pool as `connect` builds it, sound if and only if its size is below 2^32 |
| RustClient.TakeKeepsSound | clients/rust/src/lib.rs:132-137 | Taking a slot keeps free and occupied ids a partition |
| RustClient.FinishKeepsSound | clients/rust/src/lib.rs:168-173 | Any response leaves a sound pool if and only if its id is a slot and somebody waited under it; past the slots the read loop panics |
| RustClient.Slots.TakeSlot | clients/rust/src/lib.rs:132-137 | The id was free, is not free any more, and holds the caller |
| RustClient.Slots.FinishSlot | clients/rust/src/lib.rs:168-173 | Hands back the waiter of that id and frees it; panics, with nothing changed, if and only if the id is past the slots |
| NodeClient.RunKeepsInv | clients/node/dataset-client.mjs:121-176 | In every run each id is free, handed over or parked and only one of them, callers are served in the order they asked, and each call holds its own slot until it is answered |
| NodeClient.EveryRunIsSound | clients/node/dataset-client.mjs:25-44 | The same for every run of a new client |
| NodeClient.AcquireKeepsInv | clients/node/dataset-client.mjs:131-135 | Acquiring keeps it: nobody waits while a slot is free, so no newcomer overtakes |
| NodeClient.ReleaseKeepsInv | clients/node/dataset-client.mjs:137-141 | Releasing keeps it: the freed slot goes to the oldest waiter |
| NodeClient.UnsolicitedIsIgnored | clients/node/dataset-client.mjs:170-175 | A response changes something if and only if its slot is parked on; a repeated one never frees it twice |
| NodeClient.AnswerReachesItsCall | clients/node/dataset-client.mjs:121-175 | A parked call is handed the first response that bears its id, whatever else happens before |
| NodeClient.ChunksInvisible | clients/node/dataset-client.mjs:152-177 | However the socket cuts the bytes, the same calls get the same answers |
| NodeClient.LenientNeverFails | clients/node/dataset-client.mjs:154-158 | This parser refuses no input |
| NodeClient.DatasetClient.AcquireSlot | clients/node/dataset-client.mjs:131-135 | The caller is handed a slot that was free, when nobody waits, or becomes the last to wait |
| NodeClient.DatasetClient.ReleaseSlot | clients/node/dataset-client.mjs:137-141 | The slot goes to the caller that asked first among those waiting, or back to the free list |
| NodeClient.DatasetClient.SendFrame | clients/node/dataset-client.mjs:121-150 | The caller is parked under its id; what is written decodes to its request, unless the payload is too long, when nothing is written |
| NodeClient.DatasetClient.Data | clients/node/dataset-client.mjs:152-177 | The parse loop handles exactly the whole frames and keeps exactly the rest, and keeps the invariant |
| Multiplex.StepKeepsInv | clients/rust/src/lib.rs:127-185 | Every step of any participant keeps slots, permits, request bytes, queues, reply bytes and answers matched one to one |
| Multiplex.SlotForPermit | clients/rust/src/lib.rs:129-134 | In a pool of fewer than 2^32 slots a caller that holds a permit always finds a free slot, so `expect` cannot fire |
| Multiplex.FirstFrame | src/server.rs:150-157 | Whatever bytes have arrived, what the server decodes is the frame of the oldest undecoded call, never an error |
| Multiplex.ReadKeepsInv | src/server.rs:152-166 | Decoding one frame from the bytes, planning it and bucketing or answering it loses and duplicates nothing |
| Multiplex.WorkKeepsInv | src/shards/state.rs:32-38 | Applying the oldest queued operation and tagging its reply loses and duplicates nothing |
| Multiplex.HeadIsWaitedFor | clients/rust/src/lib.rs:156-176 | Whatever response bytes have arrived, the next response belongs to the very call that waits under its id, which is a slot |
| Multiplex.OneTokenEach | clients/rust/src/lib.rs:127-185 | An occupied slot has exactly one token in flight across all bytes and queues; any other call has none |
| Multiplex.EachCallGetsItsOwnAnswer | clients/rust/src/lib.rs:127-185 | In every run, whatever a caller receives is the refusal its own payload gets, or what its key's shard answered to the operation its own payload encodes |
| Multiplex.EachCallIsToldWhatHappened | clients/rust/src/lib.rs:127-185 | In every run a call whose payload encodes an operation receives its shard's answer to that operation, and one whose payload encodes none receives something that begins with "ERR " |
| Multiplex.OneRequestPerCall | clients/rust/src/lib.rs:139-147 | The bytes `call` writes are one request with its payload if and only if the payload is under 65536 bytes |
| Multiplex.OverlongCallMisread | clients/rust/src/lib.rs:122-125 | `del` of a 65536-byte key is read as `del` of the empty key, and the key as further frames |
| Multiplex.OverlongCallRefused | clients/rust/src/lib.rs:122-125 | `del` of a 65533-byte key is refused, and the next frame read has an id past the slots |
| NodeMatching.TurnIsMoves | clients/node/dataset-client.mjs:121-176 | Every turn of the Node client on a connection is a run of steps of the whole system: a slot is taken when it is handed over, and a response delivers, frees and hands on |
| NodeMatching.HeadIsParked | clients/node/dataset-client.mjs:170-175 | The next response that can be parsed bears the id of a parked slot, and it is the answer of the very call parked there |
| NodeMatching.NodeRunIsRun | clients/node/dataset-client.mjs:121-176 | Every run of the Node client is a run of the whole system |
| NodeMatching.NodeCallsGetTheirOwnAnswers | clients/node/dataset-client.mjs:121-176 | From the handshake on, whatever a call is handed is the refusal its own payload gets, or what its key's shard answered to the operation its own payload encodes |
| NodeMatching.NodeRunsAreLinear | clients/node/dataset-client.mjs:121-176 | In every such run all answers, to this client and any others, are those of one unsharded map |
| Sequential.StepSequenced | src/shards/state.rs:24-52 | Every step, for this connection or another, keeps each shard equivalent to the ideal run of what it has applied |
| Sequential.AnyOrderWillDo | src/server.rs:148-183 | In any order of the operations that keeps each shard's own, one unsharded map gives the same answers and the same content |
| Sequential.RunsAreLinear | src/server.rs:148-183 | In every run, with any other connections, all answers are those of one unsharded map that applies the operations in the order the shards did (only a DEL of an expired key may answer "1"), and the shards hold what it holds |
| Sequential.RealTimeOrder | clients/rust/src/lib.rs:127-151 | A call answered before another takes its slot was applied before it |
| Sequential.RunsRespectTime | clients/rust/src/lib.rs:127-151 | The same between any two points of every run |
| Sequential.PointsDivideLog | src/server.rs:148-183 | Any point of a run divides the log for all connections alike: what had been answered by then lies before it, what takes its slot later lies behind it |
| WrittenOrder.LaneOfCompleted | src/server.rs:148-183 | A shard has applied exactly the completed calls of its keys, in the order their frames were written |
| WrittenOrder.DeliveredIsCompleted | clients/rust/src/lib.rs:156-176 | What a caller was handed is the answer of a completed call |
| WrittenOrder.Merge | src/server.rs:148-183 | Per-shard orders that have the connection's calls in written order have a common order that does |
| WrittenOrder.RunsKeepWrittenOrder | src/server.rs:148-183 | In every run, with any other connections, one unsharded map gives the same answers in an order that has the connection's calls as they were written |

## Left out

- Sockets, Tokio scheduling, `select!` and channel internals: channels are FIFO sequences, scheduling is any choice of step.
- I/O errors and partial writes: appends, flushes and in-bounds reads succeed; the source logs such an error and carries on.
- Durability against power loss: a file is what the OS has plus what is buffered.
- `Workers.Worker.Fsync`: does not model `sync_data`, because nothing is said about what survives a power loss.
- `wyhash` is an arbitrary function to 64 bits; `LruCache`, `BinaryHeap` and `HashMap` are a recency sequence, a sorted sequence and a map; the `BufWriter` capacity of 8192 bytes is the standard library's default.
- A clock that runs back: each shard's readings are non-decreasing inputs.
- Pointer width: `usize` is taken as wide enough that the products and sums in `src/main.rs` and the cache accounting do not overflow.
- Batch boundaries in `Multiplex`: a worker's queue is flat, and the reader may dispatch after any number of frames, which covers every chunking.
- `Multiplex.StepKeepsInv`: is about calls whose payload fits a frame and pools of fewer than 2^32 slots; what becomes of other payloads is in `Multiplex.OneRequestPerCall`.
- `NodeMatching.NodeRunIsRun`: begins when the handshake has been answered, and like `Multiplex.StepKeepsInv` is about calls whose payload fits a frame and fewer than 2^32 slots.
- The reader and the workers giving up because a channel is closed (`src/server.rs:158-180`), reconnection, cancellation, `close` and `_fail`.
- `Workers.Worker.SetEx`: requires that `now + ttl` stays below 2^64, which `TIME_LIMIT` gives for any u32 ttl until far beyond any real clock.
- `Workers.Worker.Write`: requires that the value log stays below 2^64 bytes; `ShardState.State.Room` counts what a run may still append.
- `Workers.Worker.Set`: requires key and value within 65535 bytes, which is all a decoded request can carry (`Server.PlannedIsStorable`).
- `NodeClient.DatasetClient.SendFrame`: the promise machinery is reduced to ids handed over and not yet resumed; the calls' own encoders are the same as the Rust client's and are not repeated, nor is the reduction of a ttl modulo 2^32.
- `EvictLoop`, `ReadRecord`, `Receive` and `PopDue` are loop bodies or method bodies of the source given a contract of their own, and `IdleTicks` is the event loop while no message arrives; the `None` arm of `pop_lru` is not written because it is shown unreachable.
- The benchmark, the CLI, environment parsing, logging and Docker: measurement or user interface.
