/**
 * The read-through cache in front of the durable Raft log. A lookup that
 * misses scans a forward cursor over the durable log's append records,
 * caching every record it passes, until it reaches the index asked for.
 */
module RaftLogCache {
  import opened Wrappers
  import opened RaftTypes

  /** A record of the durable log: an entry and the index it was appended at. */
  datatype AppendRecord = AppendRecord(logIndex: int, entry: LogEntry)

  /** What the durable log yields at each step of a cursor: a record, or an I/O failure. */
  datatype CursorStep = Record(record: AppendRecord) | IoFailure

  /** What one call to the cursor's next() does. */
  datatype Advance = Advanced(record: AppendRecord) | Exhausted | IoException

  /** The result of a cache read; NotFound stands for the null CoolCache.get returns. */
  datatype CacheRead =
    | Found(entry: LogEntry)
    | NotFound
    | IllegalState(asked: int, reached: int)
    | StorageFailure

  /**
   * A forward cursor over the durable log. Its steps are fixed when it is
   * opened; position says how many of them next() has consumed.
   */
  class RecordCursor {
    const steps: seq<CursorStep>
    var position: nat

    ghost predicate Valid()
      reads this
    {
      position <= |steps|
    }

    constructor (steps: seq<CursorStep>)
      ensures Valid() && this.steps == steps && position == 0
    {
      this.steps := steps;
      position := 0;
    }

    /** Moves to the next record; false at the end; an I/O failure is an exception. */
    method Next() returns (r: Advance)
      requires Valid()
      modifies this
      ensures Valid()
      ensures old(position) == |steps| ==> r == Exhausted && position == old(position)
      ensures old(position) < |steps| && steps[old(position)].IoFailure? ==> r == IoException && position == old(position)
      ensures old(position) < |steps| && steps[old(position)].Record? ==>
                r == Advanced(steps[old(position)].record) && position == old(position) + 1
    {
      if position == |steps| {
        r := Exhausted;
      } else if steps[position].IoFailure? {
        r := IoException;
      } else {
        r := Advanced(steps[position].record);
        position := position + 1;
      }
    }
  }

  /**
   * A cache of log entries by index that never holds more than maxSize of
   * them. Which entry it evicts to make room is not specified; `puts` is the
   * history of every entry put into it, and every cached entry is one of them.
   */
  class LruCache {
    const maxSize: nat
    var entries: map<int, LogEntry>
    ghost var puts: seq<AppendRecord>

    ghost predicate Valid()
      reads this
    {
      && 1 <= maxSize && |entries| <= maxSize
      && (forall i :: i in entries ==> AppendRecord(i, entries[i]) in puts)
    }

    constructor (maxSize: nat)
      requires 1 <= maxSize
      ensures Valid() && this.maxSize == maxSize && entries == map[] && puts == []
    {
      this.maxSize := maxSize;
      entries := map[];
      puts := [];
    }

    method Get(logIndex: int) returns (r: Option<LogEntry>)
      ensures r.Some? <==> logIndex in entries
      ensures r.Some? ==> r.value == entries[logIndex]
    {
      r := if logIndex in entries then Some(entries[logIndex]) else None;
    }

    /** Stores the entry, evicting some other entry first when the cache is full. */
    method Put(logIndex: int, entry: LogEntry)
      requires Valid()
      modifies this
      ensures Valid()
      ensures logIndex in entries && entries[logIndex] == entry
      ensures forall i :: i in entries && i != logIndex ==> i in old(entries) && entries[i] == old(entries)[i]
      ensures puts == old(puts) + [AppendRecord(logIndex, entry)]
    {
      if logIndex !in entries && |entries| == maxSize {
        assert (forall i :: i !in entries) ==> entries.Keys == {};
        var victim :| victim in entries;
        entries := entries - {victim};
      }
      entries := entries[logIndex := entry];
      puts := puts + [AppendRecord(logIndex, entry)];
    }
  }

  /** Where a scan of the cursor for logIndex ends, and what it yields. */
  datatype ScanOutcome = ScanOutcome(result: CacheRead, position: nat)

  /** The records among the given cursor steps. */
  function RecordsOf(steps: seq<CursorStep>): (r: seq<AppendRecord>)
    ensures |r| <= |steps|
  {
    if steps == [] then []
    else (if steps[0].Record? then [steps[0].record] else []) + RecordsOf(steps[1..])
  }

  lemma {:induction false} RecordsOfAppend(steps: seq<CursorStep>, step: CursorStep)
    ensures RecordsOf(steps + [step]) == RecordsOf(steps) + (if step.Record? then [step.record] else [])
  {
    if steps != [] {
      assert (steps + [step])[1..] == steps[1..] + [step];
      RecordsOfAppend(steps[1..], step);
    }
  }

  /** The steps from `from` on hold records whose indices strictly increase. */
  ghost predicate IncreasingFrom(steps: seq<CursorStep>, from: nat)
  {
    && (forall j :: from <= j < |steps| ==> steps[j].Record?)
    && (forall j, k :: from <= j < k < |steps| ==> steps[j].record.logIndex < steps[k].record.logIndex)
  }

  /**
   * The scan CoolCache.get runs on a miss, from cursor position `from`: it
   * stops at the record for logIndex, at a record past it (an illegal state),
   * at an I/O failure, or at the end of the cursor (no entry). Every step it
   * passes is a record below logIndex, except the last one when it stops at a
   * record.
   */
  function Scan(steps: seq<CursorStep>, from: nat, logIndex: int): (o: ScanOutcome)
    requires from <= |steps|
    ensures from <= o.position <= |steps|
    ensures forall j :: from <= j < o.position ==> steps[j].Record?
    ensures forall j :: from <= j < o.position - 1 ==> steps[j].record.logIndex < logIndex
    ensures o.result.Found? || o.result.IllegalState? <==>
              o.position > from && steps[o.position - 1].record.logIndex >= logIndex
    ensures o.position > from && steps[o.position - 1].record.logIndex == logIndex ==>
              o.result == Found(steps[o.position - 1].record.entry)
    ensures o.position > from && steps[o.position - 1].record.logIndex > logIndex ==>
              o.result == IllegalState(logIndex, steps[o.position - 1].record.logIndex)
    ensures o.result.StorageFailure? ==> o.position < |steps| && steps[o.position].IoFailure?
    ensures o.result.NotFound? ==> o.position == |steps|
    ensures o.result.StorageFailure? || o.result.NotFound? ==>
              o.position == from || steps[o.position - 1].record.logIndex < logIndex
    decreases |steps| - from
  {
    if from == |steps| then ScanOutcome(NotFound, from)
    else
      match steps[from]
      case IoFailure => ScanOutcome(StorageFailure, from)
      case Record(record) =>
        if record.logIndex == logIndex then ScanOutcome(Found(record.entry), from + 1)
        else if record.logIndex > logIndex then ScanOutcome(IllegalState(logIndex, record.logIndex), from + 1)
        else Scan(steps, from + 1, logIndex)
  }

  /**
   * On a durable log whose records from the cursor on have strictly increasing
   * indices, a scan for an index that one of them holds returns that record's
   * entry: a miss yields the same entry as a direct read.
   */
  lemma {:induction false} ScanFindsPresentRecord(steps: seq<CursorStep>, from: nat, k: nat)
    requires from <= k < |steps|
    requires IncreasingFrom(steps, from)
    ensures Scan(steps, from, steps[k].record.logIndex) == ScanOutcome(Found(steps[k].record.entry), k + 1)
    decreases k - from
  {
    var logIndex := steps[k].record.logIndex;
    if from < k {
      assert steps[from].record.logIndex < logIndex;
      ScanFindsPresentRecord(steps, from + 1, k);
    }
  }

  /**
   * On such a log, a scan for an index beyond every record reads the cursor
   * to its end and yields NotFound (CoolCache.get's null), not an error.
   */
  lemma {:induction false} ScanBeyondEnd(steps: seq<CursorStep>, from: nat, logIndex: int)
    requires from <= |steps|
    requires IncreasingFrom(steps, from)
    requires forall j :: from <= j < |steps| ==> steps[j].record.logIndex < logIndex
    ensures Scan(steps, from, logIndex) == ScanOutcome(NotFound, |steps|)
    decreases |steps| - from
  {
    if from < |steps| {
      ScanBeyondEnd(steps, from + 1, logIndex);
    }
  }

  /**
   * Every entry of `entries` is either one `earlier` already held, unchanged,
   * or the entry of one of the records read.
   */
  ghost predicate CachedFrom(entries: map<int, LogEntry>, earlier: map<int, LogEntry>, read: seq<AppendRecord>)
  {
    forall i :: i in entries ==>
      || (i in earlier && entries[i] == earlier[i])
      || AppendRecord(i, entries[i]) in read
  }

  /** Putting a record just read keeps every cached entry accounted for. */
  lemma CachedFromAfterPut(before: map<int, LogEntry>, after: map<int, LogEntry>, earlier: map<int, LogEntry>,
                           read: seq<AppendRecord>, record: AppendRecord)
    requires CachedFrom(before, earlier, read)
    requires record.logIndex in after && after[record.logIndex] == record.entry
    requires forall i :: i in after && i != record.logIndex ==> i in before && after[i] == before[i]
    ensures CachedFrom(after, earlier, read + [record])
  {
    forall i | i in after
      ensures || (i in earlier && after[i] == earlier[i])
              || AppendRecord(i, after[i]) in read + [record]
    {
      if i == record.logIndex {
        assert AppendRecord(i, after[i]) == record;
      } else {
        assert AppendRecord(i, after[i]) in read ==> AppendRecord(i, after[i]) in read + [record];
      }
    }
  }

  class CoolCache {
    const cache: LruCache

    constructor (maxSize: nat)
      requires 1 <= maxSize
      ensures fresh(cache) && cache.Valid() && cache.maxSize == maxSize && cache.entries == map[]
    {
      cache := new LruCache(maxSize);
    }

    /**
     * The entry at logIndex: from the cache when it holds it, without touching
     * the cursor; otherwise from the cursor, putting every record read into
     * the cache before looking at its index.
     */
    method Get(cursor: RecordCursor, logIndex: int) returns (r: CacheRead)
      requires cache.Valid() && cursor.Valid()
      modifies cache, cursor
      ensures cache.Valid()
      ensures r.Found? ==> logIndex in cache.entries && cache.entries[logIndex] == r.entry
      ensures logIndex in old(cache.entries) ==>
                r == Found(old(cache.entries)[logIndex]) && cursor.position == old(cursor.position)
                && cache.entries == old(cache.entries) && cache.puts == old(cache.puts)
      ensures logIndex !in old(cache.entries) ==>
                var o := Scan(cursor.steps, old(cursor.position), logIndex);
                r == o.result && cursor.position == o.position
                && cache.puts == old(cache.puts) + RecordsOf(cursor.steps[old(cursor.position)..o.position])
      ensures logIndex !in old(cache.entries) ==>
                CachedFrom(cache.entries, old(cache.entries), RecordsOf(cursor.steps[old(cursor.position)..cursor.position]))
    {
      var cached := cache.Get(logIndex);
      if cached.Some? {
        return Found(cached.value);
      }
      ghost var start := cursor.position;
      ghost var steps := cursor.steps;
      while true
        invariant cache.Valid() && cursor.Valid()
        invariant start <= cursor.position
        invariant Scan(steps, start, logIndex) == Scan(steps, cursor.position, logIndex)
        invariant cache.puts == old(cache.puts) + RecordsOf(steps[start..cursor.position])
        invariant CachedFrom(cache.entries, old(cache.entries), RecordsOf(steps[start..cursor.position]))
        decreases |steps| - cursor.position
      {
        ghost var before := cursor.position;
        var step := cursor.Next();
        match step {
          case Exhausted =>
            return NotFound;
          case IoException =>
            return StorageFailure;
          case Advanced(record) =>
            ghost var entriesBefore := cache.entries;
            cache.Put(record.logIndex, record.entry);
            assert steps[start..cursor.position] == steps[start..before] + [steps[before]];
            RecordsOfAppend(steps[start..before], steps[before]);
            CachedFromAfterPut(entriesBefore, cache.entries, old(cache.entries), RecordsOf(steps[start..before]), record);
            if record.logIndex == logIndex {
              return Found(record.entry);
            } else if record.logIndex > logIndex {
              return IllegalState(logIndex, record.logIndex);
            }
        }
      }
    }
  }
}
