/**
  The sharded key-value store of src/kv_store.hpp: a fixed number of
  shards, each a map from key to value; a key lives in shard
  hash(key) % shard_count; every mutation is handed to the write-ahead
  logger before it is applied, a deletion as a write of TOMBSTONE; and on
  construction the store rebuilds its shards by folding the log's entries
  in order.
 */
module KvStore {
  import opened Wrappers
  import opened Wal

  /** "||__TOMBSTONE__||", the value that marks a deletion in the log. */
  const TOMBSTONE: Str := Ascii("||__TOMBSTONE__||")

  /** One partition of the key space (its reader/writer lock is not modelled). */
  datatype Shard = Shard(data: map<Str, Str>)

  // ---------------------------------------------------------------------
  // Recovery as a fold over the log

  /** The effect of one log entry on the recovered state. */
  function ApplyEntry(m: map<Str, Str>, e: LogEntry): (m': map<Str, Str>)
    ensures e.value == TOMBSTONE ==> e.key !in m' && m'.Keys == m.Keys - {e.key}
    ensures e.value != TOMBSTONE ==> e.key in m' && m'[e.key] == e.value && m'.Keys == m.Keys + {e.key}
    ensures forall k :: k != e.key && k in m ==> k in m' && m'[k] == m[k]
  {
    if e.value == TOMBSTONE then m - {e.key} else m[e.key := e.value]
  }

  /** The state recovered from the entries es, folded in log order from empty. */
  function Replay(es: seq<LogEntry>): (m: map<Str, Str>)
  {
    if es == [] then map[] else ApplyEntry(Replay(es[..|es| - 1]), es[|es| - 1])
  }

  lemma ReplayAppend(es: seq<LogEntry>, e: LogEntry)
    ensures Replay(es + [e]) == ApplyEntry(Replay(es), e)
  {
  }

  /** A key that no entry mentions is absent after recovery. */
  lemma {:induction false} ReplayUnmentioned(es: seq<LogEntry>, k: Str)
    requires forall j :: 0 <= j < |es| ==> es[j].key != k
    ensures k !in Replay(es)
  {
    if es != [] {
      ReplayUnmentioned(es[..|es| - 1], k);
    }
  }

  /**
    The last entry for a key decides its recovered state: absent after a
    tombstone, that entry's value otherwise.
   */
  lemma {:induction false} ReplayLastEntryDecides(es: seq<LogEntry>, j: nat)
    requires j < |es|
    requires forall j' :: j < j' < |es| ==> es[j'].key != es[j].key
    ensures es[j].key in Replay(es) <==> es[j].value != TOMBSTONE
    ensures es[j].key in Replay(es) ==> Replay(es)[es[j].key] == es[j].value
  {
    var last := |es| - 1;
    if j < last {
      ReplayLastEntryDecides(es[..last], j);
    }
  }

  // ---------------------------------------------------------------------
  // The store

  class ShardedKVStore {
    const shardCount: nat
    /** std::hash<std::string>, whose definition is not part of this model. */
    const hasher: Str -> nat
    const shards: array<Shard>
    const logger: WalLogger

    /** The key-value map the shards together hold. */
    ghost var contents: map<Str, Str>
    /** The entries read from the log at construction. */
    ghost const recovered: seq<LogEntry>
    /** The entry every put and del since construction handed to the logger. */
    ghost var mutations: seq<LogEntry>

    /** get_shard_index: the shard that holds key. */
    function GetShardIndex(key: Str): (idx: nat)
      requires shardCount > 0
      ensures idx < shardCount
    {
      hasher(key) % shardCount
    }

    /** The part of m that routing assigns to shard i. */
    ghost function ShardPart(m: map<Str, Str>, i: nat): (part: map<Str, Str>)
      requires shardCount > 0
    {
      map k | k in m && GetShardIndex(k) == i :: m[k]
    }

    ghost predicate Valid()
      reads this, shards, logger
    {
      && shardCount > 0
      && shards.Length == shardCount
      && (forall i :: 0 <= i < shardCount ==> shards[i].data == ShardPart(contents, i))
      && logger.Valid()
      && logger.appended == (if logger.isOpen then mutations else [])
    }

    /** Memory equals the fold of every entry logged so far. */
    ghost predicate Consistent()
      reads this
    {
      contents == Replay(recovered + mutations)
    }

    /** Every key stored in shard i is routed to shard i. */
    lemma KeysAreRouted()
      requires Valid()
      ensures forall i, k :: 0 <= i < shards.Length && k in shards[i].data ==> GetShardIndex(k) == i
    {
    }

    lemma ShardPartPut(m: map<Str, Str>, k: Str, v: Str, i: nat)
      requires shardCount > 0
      ensures ShardPart(m[k := v], i)
           == if i == GetShardIndex(k) then ShardPart(m, i)[k := v] else ShardPart(m, i)
    {
    }

    lemma ShardPartErase(m: map<Str, Str>, k: Str, i: nat)
      requires shardCount > 0
      ensures ShardPart(m - {k}, i)
           == if i == GetShardIndex(k) then ShardPart(m, i) - {k} else ShardPart(m, i)
    {
    }

    /**
      Creates the shards and the logger, then replays entries, the result of
      reading the whole log, in order.
     */
    constructor (count: nat, hasher: Str -> nat, wasOpened: bool, existing: seq<uint8>,
                 entries: seq<LogEntry>)
      requires count > 0
      ensures Valid() && Consistent()
      ensures fresh(shards) && fresh(logger)
      ensures shardCount == count && this.hasher == hasher
      ensures logger.isOpen == wasOpened && logger.file == existing && logger.prefix == existing
      ensures recovered == entries && mutations == []
      ensures contents == Replay(entries)
    {
      shardCount := count;
      this.hasher := hasher;
      shards := new Shard[count](_ => Shard(map[]));
      logger := new WalLogger(wasOpened, existing);
      recovered := entries;
      mutations := [];
      contents := map[];
      new;
      var i := 0;
      while i < |entries|
        invariant 0 <= i <= |entries|
        invariant Valid()
        invariant contents == Replay(entries[..i])
        invariant mutations == []
        modifies this, shards
      {
        var entry := entries[i];
        var idx := GetShardIndex(entry.key);
        if entry.value == TOMBSTONE {
          shards[idx] := Shard(shards[idx].data - {entry.key});
        } else {
          shards[idx] := Shard(shards[idx].data[entry.key := entry.value]);
        }
        ghost var before := contents;
        contents := ApplyEntry(contents, entry);
        forall j | 0 <= j < shardCount
          ensures shards[j].data == ShardPart(contents, j)
        {
          if entry.value == TOMBSTONE {
            ShardPartErase(before, entry.key, j);
          } else {
            ShardPartPut(before, entry.key, entry.value, j);
          }
        }
        assert entries[..i + 1] == entries[..i] + [entry];
        ReplayAppend(entries[..i], entry);
        i := i + 1;
      }
      assert entries[..i] == entries;
      assert recovered + mutations == entries;
    }

    /** put: logs (key, value), then installs value in key's shard. */
    method Put(key: Str, value: Str)
      requires Valid()
      modifies this, shards, logger
      ensures Valid()
      ensures contents == old(contents)[key := value]
      ensures mutations == old(mutations) + [LogEntry(key, value)]
      ensures logger.isOpen ==> logger.file == old(logger.file) + EncodeRecord(LogEntry(key, value))
      ensures !logger.isOpen ==> logger.file == old(logger.file)
      ensures shards[GetShardIndex(key)].data == old(shards[GetShardIndex(key)].data)[key := value]
      ensures forall i :: 0 <= i < shards.Length && i != GetShardIndex(key) ==> shards[i] == old(shards[i])
      ensures old(Consistent()) && value != TOMBSTONE ==> Consistent()
      ensures value == TOMBSTONE ==> !Consistent()
    {
      logger.LogOperation(key, value);
      var idx := GetShardIndex(key);
      shards[idx] := Shard(shards[idx].data[key := value]);
      ghost var before := contents;
      contents := contents[key := value];
      forall j | 0 <= j < shardCount
        ensures shards[j].data == ShardPart(contents, j)
      {
        ShardPartPut(before, key, value, j);
      }
      ghost var history := recovered + mutations;
      mutations := mutations + [LogEntry(key, value)];
      assert recovered + mutations == history + [LogEntry(key, value)];
      ReplayAppend(history, LogEntry(key, value));
    }

    /** get: looks key up in its shard; out_value is left alone when absent. */
    method Get(key: Str, outValue: Str) returns (found: bool, value: Str)
      requires Valid()
      ensures found <==> key in shards[GetShardIndex(key)].data
      ensures found <==> key in contents
      ensures value == if found then contents[key] else outValue
    {
      var idx := GetShardIndex(key);
      if key in shards[idx].data {
        return true, shards[idx].data[key];
      }
      return false, outValue;
    }

    /** del: logs (key, TOMBSTONE), then erases key from its shard. */
    method Del(key: Str)
      requires Valid()
      modifies this, shards, logger
      ensures Valid()
      ensures contents == old(contents) - {key}
      ensures key !in old(contents) ==> forall i :: 0 <= i < shards.Length ==> shards[i] == old(shards[i])
      ensures mutations == old(mutations) + [LogEntry(key, TOMBSTONE)]
      ensures logger.isOpen ==> logger.file == old(logger.file) + EncodeRecord(LogEntry(key, TOMBSTONE))
      ensures !logger.isOpen ==> logger.file == old(logger.file)
      ensures shards[GetShardIndex(key)].data == old(shards[GetShardIndex(key)].data) - {key}
      ensures forall i :: 0 <= i < shards.Length && i != GetShardIndex(key) ==> shards[i] == old(shards[i])
      ensures old(Consistent()) ==> Consistent()
    {
      logger.LogOperation(key, TOMBSTONE);
      var idx := GetShardIndex(key);
      shards[idx] := Shard(shards[idx].data - {key});
      ghost var before := contents;
      contents := contents - {key};
      forall j | 0 <= j < shardCount
        ensures shards[j].data == ShardPart(contents, j)
      {
        ShardPartErase(before, key, j);
      }
      if key !in before {
        assert shards[idx].data == old(shards[idx].data);
      }
      ghost var history := recovered + mutations;
      mutations := mutations + [LogEntry(key, TOMBSTONE)];
      assert recovered + mutations == history + [LogEntry(key, TOMBSTONE)];
      ReplayAppend(history, LogEntry(key, TOMBSTONE));
    }

    /** A log file that never opened holds only what it held before: no mutation reaches it. */
    lemma LogNeverOpened()
      requires Valid()
      requires !logger.isOpen
      ensures logger.file == logger.prefix
      ensures logger.appended == []
    {
    }

    /**
      Restarting on this log file rebuilds the same map: when the file held
      a readable log of the recovered entries at construction and is open,
      it now decodes to every entry recovered or logged since, and their
      fold is the current contents.
     */
    lemma LogReplaysToContents()
      requires Valid() && Consistent()
      requires logger.isOpen
      requires DecodeLog(logger.prefix) == Some(recovered)
      ensures DecodeLog(logger.file) == Some(recovered + mutations)
      ensures Replay(DecodeLog(logger.file).value) == contents
    {
      DecodeLogSound(logger.prefix);
      EncodeLogAppend(recovered, mutations);
      LogRoundTrip(recovered + mutations);
    }
  }

  lemma FirstRunContents(m: map<Str, Str>, key: Str, x: Str, y: Str, survives: Str, one: Str, two: Str)
    requires key != x && key != y && x != y
    ensures var m' := m[key := survives][x := one][y := two] - {x};
      key in m' && m'[key] == survives && x !in m' && y in m' && m'[y] == two
  {
  }

  /**
    The first run of the restart scenario: on an empty log,
    put("persist_key", "data_survives"), put("x", "1"), put("y", "2") and
    del("x").  The log file it leaves decodes, and folds to a map with
    "data_survives" under "persist_key", no "x", and "2" under "y".
   */
  method FirstRun(hasher: Str -> nat) returns (log: seq<uint8>)
    ensures DecodeLog(log).Some?
    ensures var m := Replay(DecodeLog(log).value);
      && Ascii("persist_key") in m && m[Ascii("persist_key")] == Ascii("data_survives")
      && Ascii("x") !in m
      && Ascii("y") in m && m[Ascii("y")] == Ascii("2")
  {
    var key, survives := Ascii("persist_key"), Ascii("data_survives");
    var x, y, one, two := Ascii("x"), Ascii("y"), Ascii("1"), Ascii("2");
    assert x != y by { assert x[0] != y[0]; }
    assert key != x && key != y by { assert |key| == 11; }
    assert |TOMBSTONE| == 17;
    assert survives != TOMBSTONE && one != TOMBSTONE && two != TOMBSTONE;
    var db := new ShardedKVStore(4, hasher, true, [], []);
    assert db.recovered + db.mutations == [];
    ghost var m0 := db.contents;
    db.Put(key, survives);
    ghost var m1 := db.contents;
    db.Put(x, one);
    ghost var m2 := db.contents;
    db.Put(y, two);
    ghost var m3 := db.contents;
    db.Del(x);
    assert db.contents == m3 - {x} && m3 == m2[y := two] && m2 == m1[x := one] && m1 == m0[key := survives];
    FirstRunContents(m0, key, x, y, survives, one, two);
    assert DecodeLog(db.logger.prefix) == Some(db.recovered);
    db.LogReplaysToContents();
    log := db.logger.file;
  }

  /**
    The restart: a second store opened on the log the first run left, and
    hashing with a possibly different function, finds "data_survives" under
    "persist_key", no "x", and "2" under "y".
   */
  method RestartScenario(hasher: Str -> nat, restartHasher: Str -> nat)
    returns (foundKey: bool, valueKey: Str, foundX: bool, foundY: bool, valueY: Str)
    ensures foundKey && valueKey == Ascii("data_survives")
    ensures !foundX
    ensures foundY && valueY == Ascii("2")
  {
    var log := FirstRun(hasher);
    var entries := DecodeLog(log).value;
    var restarted := new ShardedKVStore(4, restartHasher, true, log, entries);
    foundKey, valueKey := restarted.Get(Ascii("persist_key"), []);
    var valueX;
    foundX, valueX := restarted.Get(Ascii("x"), []);
    foundY, valueY := restarted.Get(Ascii("y"), []);
  }
}
