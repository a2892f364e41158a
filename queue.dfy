/** PersistentQueue (peafowl/queue.py): an in-memory FIFO of byte strings
    whose every logged operation is appended to a transaction log file that
    is replayed when the queue is opened. The file system is modelled by the
    queue's own fields: `live` is the contents of the log file at the queue's
    path and `archived` the files that rotation renamed away, oldest first. */
module Queue {
  import opened Bytes
  import opened TransactionLog

  /** The read loop of `_replay_transaction_log` over a log file: `rest` is
      the part of the file not read yet, and `items`, `bytesRead` and
      `pushes` stand for the FIFO being refilled, the running byte count and
      `total_items`. */
  method ReplayLog(file: seq<byte>) returns (r: ReplayOutcome)
    ensures r == Replay(file)
  {
    var rest := file;
    var items: seq<seq<byte>> := [];
    var bytesRead: int := 0;
    var pushes: nat := 0;
    while rest != []
      invariant ReplayRest(rest, items, bytesRead, pushes) == Replay(file)
      decreases |rest|
    {
      var cmd := rest[0];
      if cmd == PushTag {
        if |rest| < 5 {
          return SizeFieldTruncated;
        }
        var size: int := FromLE32(rest[1..5]);
        var data := rest[5..Min(5 + size, |rest|)];
        rest := rest[5 + |data|..];
        if data != [] {
          items := items + [data];
          bytesRead := bytesRead + |data|;
          pushes := pushes + 1;
        }
      } else if cmd == PopTag {
        if items == [] {
          return PopFromEmpty;
        }
        bytesRead := bytesRead - |items[0]|;
        items := items[1..];
        rest := rest[1..];
      } else {
        rest := rest[1..];
      }
    }
    return Replayed(items, bytesRead, pushes);
  }

  class PersistentQueue {
    const name: seq<byte>
    /** The inherited synchronized FIFO, oldest item first. */
    var items: seq<seq<byte>>
    /** The current log file's contents. */
    var live: seq<byte>
    /** Rotated log files, in rotation order. */
    var archived: seq<seq<byte>>
    var logSize: nat
    var totalItems: nat
    /** `transaction_log` is not None. */
    var attached: bool
    var initialBytes: int
    /** Every byte the log files of this queue have held: the file found at
        opening, then every record appended since. */
    ghost var written: seq<byte>

    ghost predicate Valid()
      reads this
    {
      logSize == |live| && Flatten(archived) + live == written
    }

    /** Restarting now would rebuild exactly the FIFO held in memory. */
    ghost predicate Durable()
      reads this
    {
      Mirrors(live, items)
    }

    function Files(): LogFiles
      reads this
    {
      LogFiles(live, archived, logSize)
    }

    function QSize(): nat
      reads this
    {
      |items|
    }

    /** Opens (creating if absent) the log file holding `file` and replays it. */
    constructor Open(name: seq<byte>, file: seq<byte>)
      requires Replay(file).Replayed?
      ensures Valid() && attached && this.name == name
      ensures live == file && archived == [] && written == file
      ensures items == Replay(file).items && totalItems == Replay(file).pushes
      ensures initialBytes == TotalLength(items)
      ensures WellFramed(file) ==> Durable()
    {
      this.name := name;
      live := file;
      archived := [];
      logSize := |file|;
      attached := true;
      written := file;
      items := [];
      totalItems := 0;
      initialBytes := 0;
      new;
      var r := ReplayLog(file);
      ReplayBytesRead(file, [], 0, 0);
      items := r.items;
      totalItems := r.pushes;
      initialBytes := r.bytesRead;
    }

    /** `_rotate_log` followed by `_open_log` on the fresh file: the live file
        is archived and a new empty one started. */
    method RotateLog()
      requires Valid()
      modifies this
      ensures Valid()
      ensures archived == old(archived) + [old(live)] && live == [] && logSize == 0
      ensures written == old(written) && items == old(items) && totalItems == old(totalItems)
      ensures attached == old(attached) && initialBytes == old(initialBytes)
    {
      FlattenSnoc(archived, live);
      archived := archived + [live];
      live := [];
      logSize := 0;
    }

    /** `_transaction(record)`: write and flush the record, count its bytes,
        and rotate if the log is past the soft limit while the FIFO is empty.
        `pending` is the number of items about to enter the FIFO that the
        rotation test counts (0 in the code as written). */
    method Transaction(record: seq<byte>, pending: nat)
      requires Valid() && attached
      modifies this
      ensures Valid()
      ensures Files() == Append(old(Files()), record, |items| + pending)
      ensures written == old(written) + record
      ensures items == old(items) && totalItems == old(totalItems)
      ensures attached && initialBytes == old(initialBytes)
    {
      AppendKeepsHistory(Files(), record, |items| + pending);
      live := live + record;
      written := written + record;
      logSize := logSize + |record|;
      if logSize > SoftLogMaxSize && |items| + pending == 0 {
        RotateLog();
      }
    }

    /** Logged `put(v)` as written: false stands for the TransactionLogError
        raised when the log is detached, which changes nothing. The PUSH
        record is appended (and the rotation test run) before the value
        enters the FIFO. */
    method Put(v: seq<byte>) returns (ok: bool)
      requires Valid() && |v| < U32Limit
      modifies this
      ensures Valid() && ok == old(attached)
      ensures !ok ==> unchanged(this)
      ensures ok ==> Files() == Append(old(Files()), EncodeRecord(Push(v)), |old(items)|)
      ensures ok ==> written == old(written) + EncodeRecord(Push(v))
      ensures ok ==> items == old(items) + [v] && totalItems == old(totalItems) + 1 && attached
      ensures initialBytes == old(initialBytes)
      ensures ok && old(Durable()) && |v| > 0 && !Rotates(old(logSize), EncodeRecord(Push(v)), |old(items)|)
              ==> Durable()
    {
      if !attached {
        return false;
      }
      Transaction(EncodeRecord(Push(v)), 0);
      totalItems := totalItems + 1;
      items := items + [v];
      if old(Durable()) && |v| > 0 && !Rotates(old(logSize), EncodeRecord(Push(v)), |old(items)|) {
        MirrorsPush(old(live), old(items), v);
      }
      return true;
    }

    /** Logged `put(v)` with the rotation test counting the value being
        pushed, so that a push never rotates and the live log keeps
        mirroring the FIFO. */
    method DurablePut(v: seq<byte>) returns (ok: bool)
      requires Valid() && |v| < U32Limit
      modifies this
      ensures Valid() && ok == old(attached)
      ensures !ok ==> unchanged(this)
      ensures ok ==> Files() == Append(old(Files()), EncodeRecord(Push(v)), |old(items)| + 1)
      ensures ok ==> live == old(live) + EncodeRecord(Push(v)) && archived == old(archived)
      ensures ok ==> written == old(written) + EncodeRecord(Push(v))
      ensures ok ==> items == old(items) + [v] && totalItems == old(totalItems) + 1 && attached
      ensures initialBytes == old(initialBytes)
      ensures ok && old(Durable()) && |v| > 0 ==> Durable()
    {
      if !attached {
        return false;
      }
      Transaction(EncodeRecord(Push(v)), 1);
      totalItems := totalItems + 1;
      items := items + [v];
      if old(Durable()) && |v| > 0 {
        DurablePushMirrors(old(Files()), old(items), v);
      }
      return true;
    }

    /** Logged `get()`: removes and returns the oldest item, then appends a POP
        record. None stands for the TransactionLogError raised, before
        anything is removed, when the log is detached. The FIFO must be
        non-empty: the blocking `Queue.get` would otherwise wait forever. */
    method Get() returns (r: Option<seq<byte>>)
      requires Valid() && items != []
      modifies this
      ensures Valid() && r.Some? == old(attached)
      ensures r.None? ==> unchanged(this)
      ensures r.Some? ==> r.value == old(items[0]) && items == old(items[1..])
      ensures r.Some? ==> Files() == Append(old(Files()), EncodeRecord(Pop), |items|)
      ensures r.Some? ==> written == old(written) + EncodeRecord(Pop) && attached
      ensures totalItems == old(totalItems) && initialBytes == old(initialBytes)
      ensures r.Some? && old(Durable()) ==> Durable()
    {
      if !attached {
        return None;
      }
      var value := items[0];
      items := items[1..];
      Transaction(EncodeRecord(Pop), 0);
      if old(Durable()) {
        PopMirrors(old(Files()), old(items));
      }
      return Some(value);
    }

    /** Detaches the transaction log. The lock it takes is never released, so
        a second close would wait forever: the queue must still be attached. */
    method Close()
      requires Valid() && attached
      modifies this
      ensures Valid() && !attached
      ensures items == old(items) && Files() == old(Files()) && written == old(written)
      ensures totalItems == old(totalItems) && initialBytes == old(initialBytes)
    {
      attached := false;
    }
  }
}
