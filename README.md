# NanoDB storage engine in Dafny

A model of the storage engine of NanoDB: a sharded in-memory key-value
store (`ShardedKVStore`, src/kv_store.hpp) whose mutations are first handed
to an append-only write-ahead logger (`WALLogger`, src/wal_logger.hpp), and
which rebuilds its shards at construction by folding the log's entries in
order.

- `wrappers.dfy` — `Option`, used by the model log reader.
- `wal_logger.dfy` (module `Wal`) — bytes (`uint8`), `Str` (a byte string
  whose size fits in a `size_t`), `LogEntry`, the 8-byte little-endian
  length field, the record layout `[key length][key][value length][value]`,
  a model reader for that layout (`DecodeRecord`, `DecodeLog`) and the
  class `WalLogger`, whose `file` field is the byte sequence of the log and
  whose `LogOperation` appends one record as four successive writes, or
  does nothing when the file is not open.
- `kv_store.dfy` (module `KvStore`) — `TOMBSTONE`, `Shard`, the recovery
  fold (`ApplyEntry`, `Replay`) and the class `ShardedKVStore`: an
  `array<Shard>` of fixed length, the owned logger, and `Put`, `Get`, `Del`
  and the recovering constructor. Its ghost state is `contents` (the map
  the shards together hold), `recovered` (the entries replayed at
  construction) and `mutations` (the entry each `Put`/`Del` handed to the
  logger). `Valid()` ties every shard to the part of `contents` that
  routing sends to it, and the logger's appended records to `mutations`.
  `Consistent()` says that `contents` is the fold of
  `recovered + mutations`.

`std::hash<std::string>` is the constructor parameter `hasher`, a function
the model knows nothing about. Whether opening the log file succeeded and
what the file already held are constructor inputs too, and so is the
result of `read_all_logs()`, which src/kv_store.hpp:33 calls but which
src/wal_logger.hpp does not define (`entries`).

`log_operation` returns nothing and silently skips the write when the file
is not open (src/wal_logger.hpp:17), and `put`/`del` then still change
memory (src/kv_store.hpp:48-52, 70-75); a log that never opened therefore
loses every mutation on restart (`LogNeverOpened`). A shard count of zero
is not rejected but is undefined behaviour, so it is a precondition. No
torn-tail tolerance is modelled, because the code that reads the log is not
part of this model.

A `put` whose value is `TOMBSTONE` is accepted and stored, but the logged
record reads back as a deletion: `Put` states that memory and the fold of
the log then disagree. For every other value, `Put` and `Del` keep memory
equal to the fold of everything logged.

## Model

| member | source | states |
|---|---|---|
| `Wal.DecodeLE` | src/wal_logger.hpp:20-26 | a little-endian field of w bytes holds a number below 256^w |
| `Wal.DecodeEncodeLE` | src/wal_logger.hpp:20-26 | writing n in w little-endian bytes and reading them back gives n, for every n below 256^w |
| `Wal.EncodeDecodeLE` | src/wal_logger.hpp:20-26 | every byte string is the encoding of the number it decodes to (the field is canonical) |
| `Wal.EncodeLength` | src/wal_logger.hpp:20-23 | a size_t length field is 8 bytes that decode to the length |
| `Wal.EncodeRecord` | src/wal_logger.hpp:19-26 | a record is 8 + key size + 8 + value size bytes long |
| `Wal.LengthFieldsDescribeFields` | src/wal_logger.hpp:20-26 | in a record the first length field decodes to the key's size and is followed by the key, the second decodes to the value's size and is followed by the value |
| `Wal.DecodeRecord` | src/wal_logger.hpp:19-26 | a record read from the front of a file occupies at least the two length fields and no more than the file |
| `Wal.RecordSelfDelimiting` | src/wal_logger.hpp:19-26 | a record followed by any bytes reads back as its own entry and exactly its own length |
| `Wal.DecodeRecordSound` | src/wal_logger.hpp:19-26 | the bytes a read consumes are exactly the encoding of the entry it returns |
| `Wal.EncodeLogAppend` | src/wal_logger.hpp:12-13 | the file for two runs of records is the file of the first followed by the file of the second |
| `Wal.LogRoundTrip` | src/wal_logger.hpp:15-30 | a file of records decodes to exactly the entries written, in write order |
| `Wal.DecodeLogSound` | src/wal_logger.hpp:19-26 | a file that decodes is exactly the encoding of the entries it decodes to |
| `Wal.AppendDecodes` | src/wal_logger.hpp:23-26 | appending a record to a readable file adds that entry at the end of what it reads as |
| `Wal.WritesMakeRecord` | src/wal_logger.hpp:23-26 | the four writes of length, key, length, value append exactly one record, growing the file by 8 + key size + 8 + value size bytes and keeping the old bytes as a prefix |
| `Wal.WalLogger.Write` | src/wal_logger.hpp:23-26 | a write on the append-mode stream adds its bytes at the end of the file |
| `Wal.WalLogger.constructor` | src/wal_logger.hpp:10-13 | the handle is open or not as the open call decided, and the file holds what it held before |
| `Wal.WalLogger.LogOperation` | src/wal_logger.hpp:15-30 | when open, the file becomes the old file followed by the record of (key, value), growing by 8 + key size + 8 + value size bytes; the old bytes are an unchanged prefix; when not open, nothing changes |
| `KvStore.ApplyEntry` | src/kv_store.hpp:37-42 | a tombstone entry removes its key, any other entry maps its key to its value, and no other key changes |
| `KvStore.ReplayAppend` | src/kv_store.hpp:34-43 | recovery folds entries strictly in order: one more entry applies to the state the earlier ones built |
| `KvStore.ReplayUnmentioned` | src/kv_store.hpp:33-43 | a key no entry mentions is absent after recovery |
| `KvStore.ReplayLastEntryDecides` | src/kv_store.hpp:33-43 | the last entry for a key decides it: present exactly when that entry is not a tombstone, and then with that entry's value |
| `KvStore.ShardedKVStore.GetShardIndex` | src/kv_store.hpp:23-26 | the shard index is below the shard count and is a function of the key alone (hasher and count are constants) |
| `KvStore.ShardedKVStore.KeysAreRouted` | src/kv_store.hpp:35-41 | in a valid store every key in shard i is routed to shard i |
| `KvStore.ShardedKVStore.ShardPartPut` | src/kv_store.hpp:50-52 | writing a key changes only the part of the map routed to that key's shard, by that key alone |
| `KvStore.ShardedKVStore.ShardPartErase` | src/kv_store.hpp:73-75 | erasing a key changes only the part of the map routed to that key's shard, by that key alone |
| `KvStore.ShardedKVStore.constructor` | src/kv_store.hpp:29-45 | the store has count empty-started shards and the logger, and after the replay loop holds exactly the fold of the entries, with the routing invariant established |
| `KvStore.ShardedKVStore.Put` | src/kv_store.hpp:47-53 | the logger gets (key, value) first; then key maps to value, only shard get_shard_index(key) changes and only at key; memory stays the fold of the log unless value is the tombstone, in which case it no longer is |
| `KvStore.ShardedKVStore.Get` | src/kv_store.hpp:55-65 | found exactly when key is in its shard (equivalently in the store), with the stored value; otherwise out_value is left as it was; no modifies clause, so no shard changes |
| `KvStore.ShardedKVStore.Del` | src/kv_store.hpp:67-76 | the logger gets (key, TOMBSTONE) first; then key is absent, only shard get_shard_index(key) changes and only at key, an absent key leaves every shard as it was, and memory stays the fold of the log |
| `KvStore.ShardedKVStore.LogReplaysToContents` | src/kv_store.hpp:33-43 | when the open log file decoded to the recovered entries, it now decodes to those followed by every logged mutation, and their fold is the current contents: a restart on this file rebuilds the same map |
| `KvStore.ShardedKVStore.LogNeverOpened` | src/wal_logger.hpp:17 | when the log file never opened, the file still holds only what it held before and no mutation reaches it |
| `KvStore.FirstRun` | tests/integration_test.py:108-117 | the persistence test's first run (put persist_key=data_survives on an empty log), extended with puts of x=1, y=2 and a del of x, leaves a log file that decodes and folds to persist_key=data_survives, no x, and y=2 |
| `KvStore.RestartScenario` | tests/integration_test.py:122-141 | a store restarted on that log finds data_survives under persist_key, as the persistence test checks, and, for the added operations, no x and 2 under y; the restarted store may hash with a different function, since recovery re-routes every entry |

## Left out

- Concurrency: the per-shard `std::shared_mutex` and the logger's `std::mutex`; every operation is modelled as atomic and sequential. `Consistent()` is a sequential property: `put` releases the logger's mutex before it takes the shard lock (src/wal_logger.hpp:16, src/kv_store.hpp:48-52), so two concurrent puts to one key can be logged in one order and applied in the other, and memory then differs from what a restart rebuilds.
- File I/O: the stream's open modes, `flush()` and its durability promise are not modelled; the file is a byte sequence and being open is a boolean fixed at construction.
- The "Recovered N log entries" message printed by the constructor.
- `std::hash<std::string>`: its definition is not available, so it is an arbitrary function parameter; nothing is assumed about its values.
- `read_all_logs`: not defined in the code shown; the constructor takes its result as the input `entries`. `DecodeLog` is a reader for the record layout, not a model of that function, and it rejects a file with a trailing partial record instead of stopping before it.
- The constructor's default arguments (16 shards, "wal.log"): the file name is replaced by the outcome of opening it and its existing bytes.
- `size_t`: keys and values are byte strings shorter than 2^64 (`Str`), which every `std::string` is; lengths therefore never wrap.
- src/main.cpp and the command-line loop the tests drive (PUT/GET/DEL/EXIT and its prompt): drivers outside the engine.
- tests/stress_test.py: it only writes a data file.
