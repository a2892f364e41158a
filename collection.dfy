/** QueueCollection (peafowl/collection.py): the registry from queue name to
    PersistentQueue, with lazy creation guarded by a per-name creation lock,
    the draining flag set at shutdown, and the aggregate counters. Locks are
    modelled as booleans (true while held) and calls are sequential; the
    root directory is modelled by `disk`, the log files it held when the
    collection was built. */
module Collection {
  import opened Bytes
  import opened TransactionLog
  import opened Queue

  type Name = seq<byte>

  /** A log file's contents that replay without error: the only files the
      registry may open (an erroneous file makes the constructor raise). */
  type LogFile = f: seq<byte> | Replay(f).Replayed? witness []

  /** The queue directory: the log file at each name's path, if there is one. */
  type Disk = map<Name, LogFile>

  /** Sum of `w` over the FIFOs that `m` gives the names in `names`; a name
      that `m` does not hold counts 0. */
  function SumOver(names: seq<Name>, m: map<Name, seq<seq<byte>>>, w: Measure): int
  {
    if names == [] then 0
    else (if names[0] in m then Weigh(w, m[names[0]]) else 0) + SumOver(names[1..], m, w)
  }

  function Weight(m: map<Name, seq<seq<byte>>>, k: Name, w: Measure): int
  {
    if k in m then Weigh(w, m[k]) else 0
  }

  /** What a sum over the registry counts: bytes or items. */
  datatype Measure = ByteCount | ItemCount

  function Weigh(w: Measure, fifo: seq<seq<byte>>): nat
  {
    match w
    case ByteCount => TotalLength(fifo)
    case ItemCount => |fifo|
  }

  predicate Distinct(names: seq<Name>)
  {
    forall i, j | 0 <= i < j < |names| :: names[i] != names[j]
  }

  /** Changing the FIFO of one name moves the sum by exactly the change of
      that name's weight, and not at all if the name is not summed over. */
  lemma {:induction false} SumOverUpdate(names: seq<Name>, m: map<Name, seq<seq<byte>>>, k: Name,
                                         v: seq<seq<byte>>, w: Measure)
    requires Distinct(names)
    ensures SumOver(names, m[k := v], w)
            == SumOver(names, m, w) + (if k in names then Weigh(w, v) - Weight(m, k, w) else 0)
  {
    if names != [] {
      assert Distinct(names[1..]) by {
        forall i, j | 0 <= i < j < |names[1..]| ensures names[1..][i] != names[1..][j] {
          assert names[1..][i] == names[i + 1] && names[1..][j] == names[j + 1];
        }
      }
      SumOverUpdate(names[1..], m, k, v, w);
      if names[0] == k {
        assert k !in names[1..] by {
          forall i | 0 <= i < |names[1..]| ensures names[1..][i] != k {
            assert names[1..][i] == names[i + 1];
          }
        }
      } else {
        assert (k in names) == (k in names[1..]) by {
          if k in names {
            var i :| 0 <= i < |names| && names[i] == k;
            assert names[1..][i - 1] == k;
          }
        }
      }
    }
  }

  lemma {:induction false} SumOverSnoc(names: seq<Name>, k: Name, m: map<Name, seq<seq<byte>>>, w: Measure)
    ensures SumOver(names + [k], m, w) == SumOver(names, m, w) + Weight(m, k, w)
  {
    if names == [] {
      assert [k][1..] == [];
    } else {
      assert (names + [k])[1..] == names[1..] + [k];
      SumOverSnoc(names[1..], k, m, w);
    }
  }

  /** No item is held across the given names exactly when every one of
      their FIFOs is empty. */
  lemma {:induction false} NoItemsHeld(names: seq<Name>, m: map<Name, seq<seq<byte>>>)
    ensures SumOver(names, m, ItemCount) >= 0
    ensures SumOver(names, m, ItemCount) == 0
            <==> forall i | 0 <= i < |names| && names[i] in m :: m[names[i]] == []
  {
    if names != [] {
      NoItemsHeld(names[1..], m);
      if SumOver(names, m, ItemCount) == 0 {
        forall i | 0 <= i < |names| && names[i] in m ensures m[names[i]] == [] {
          if i > 0 { assert names[1..][i - 1] == names[i]; }
        }
      } else {
        var i :| 0 <= i < |names| && names[i] in m && m[names[i]] != [] by {
          if names[0] in m && m[names[0]] != [] {
          } else {
            var j :| 0 <= j < |names[1..]| && names[1..][j] in m && m[names[1..][j]] != [];
            assert names[j + 1] == names[1..][j];
          }
        }
      }
    }
  }

  /** The registry's state: the FIFO of every registered queue, the names in
      dictionary order, the creation locks (true while held), whether the
      shutdown lock is held, and the four counters of `stats`. */
  datatype Registry = Registry(held: map<Name, seq<seq<byte>>>, names: seq<Name>,
                               locks: map<Name, bool>, draining: bool,
                               currentBytes: int, totalItems: nat, getMisses: nat, getHits: nat)

  /** Every registered name is listed once and has its creation lock, and
      `current_bytes` is the number of bytes resident in the FIFOs. */
  ghost predicate Consistent(r: Registry)
  {
    (forall k :: k in r.held <==> k in r.names) &&
    Distinct(r.names) &&
    (forall k | k in r.held :: k in r.locks) &&
    r.currentBytes == SumOver(r.names, r.held, ByteCount)
  }

  /** The log file at the path of `key`; a missing file is created empty. */
  function DiskLog(disk: Disk, key: Name): LogFile
  {
    if key in disk then disk[key] else []
  }

  /** The FIFO a queue opened on the log file of `key` starts with. */
  function Recovered(disk: Disk, key: Name): seq<seq<byte>>
  {
    Replay(DiskLog(disk, key)).items
  }

  /** `get_queues(key)` yields a queue: the registry is not draining, and the
      name is registered or its creation lock is free. */
  predicate Resolves(r: Registry, key: Name)
  {
    !r.draining && (key in r.held || !(key in r.locks && r.locks[key]))
  }

  /** The FIFO of `key`, or the one it would start with if created now. */
  function Prospective(r: Registry, disk: Disk, key: Name): seq<seq<byte>>
  {
    if key in r.held then r.held[key] else Recovered(disk, key)
  }

  /** The items `take(key)` can reach. */
  function Visible(r: Registry, disk: Disk, key: Name): seq<seq<byte>>
  {
    if Resolves(r, key) then Prospective(r, disk, key) else []
  }

  /** The registry after `get_queues(key)`: a resolving name not registered
      yet gets a queue recovered from its log file, whose bytes are counted. */
  function Resolved(r: Registry, disk: Disk, key: Name): Registry
  {
    if Resolves(r, key) && key !in r.held then
      r.(held := r.held[key := Recovered(disk, key)], names := r.names + [key],
         locks := r.locks[key := false],
         currentBytes := r.currentBytes + TotalLength(Recovered(disk, key)))
    else r
  }

  /** The registry after `put(key, data)`. */
  function Stored(r: Registry, disk: Disk, key: Name, data: seq<byte>): Registry
  {
    if Resolves(r, key) then
      var t := Resolved(r, disk, key);
      t.(held := t.held[key := Prospective(r, disk, key) + [data]],
         currentBytes := t.currentBytes + |data|, totalItems := t.totalItems + 1)
    else r
  }

  /** The registry after `take(key)`, and what it returns. */
  function Taken(r: Registry, disk: Disk, key: Name): (Registry, Option<seq<byte>>)
  {
    var t := Resolved(r, disk, key);
    var fifo := Visible(r, disk, key);
    if fifo == [] then (t.(getMisses := t.getMisses + 1), None)
    else (t.(held := t.held[key := fifo[1..]], currentBytes := t.currentBytes - |fifo[0]|,
             getHits := t.getHits + 1), Some(fifo[0]))
  }

  lemma UpdateTwice<K, V>(m: map<K, V>, k: K, a: V, b: V)
    ensures m[k := a][k := b] == m[k := b]
  {
  }

  lemma {:induction false} DistinctSnoc(names: seq<Name>, k: Name)
    requires Distinct(names) && k !in names
    ensures Distinct(names + [k])
  {
    var ns := names + [k];
    forall i, j | 0 <= i < j < |ns| ensures ns[i] != ns[j] {
      if j < |names| {
        assert ns[i] == names[i] && ns[j] == names[j];
      } else {
        assert ns[i] == names[i];
      }
    }
  }

  /** Resolving keeps the registry consistent; a resolving name ends up
      registered with its prospective FIFO and nothing else changes, and a
      name that does not resolve changes nothing. */
  lemma ResolveKeepsConsistent(r: Registry, disk: Disk, key: Name)
    requires Consistent(r)
    ensures Consistent(Resolved(r, disk, key))
    ensures Resolves(r, key) ==> Resolved(r, disk, key).held == r.held[key := Prospective(r, disk, key)]
    ensures !Resolves(r, key) ==> Resolved(r, disk, key) == r
    ensures Resolved(r, disk, key).currentBytes - r.currentBytes
            == if Resolves(r, key) && key !in r.held then TotalLength(Recovered(disk, key)) else 0
  {
    if Resolves(r, key) && key !in r.held {
      RegisterKeepsConsistent(r, key, Recovered(disk, key));
    } else if Resolves(r, key) {
      assert r.held[key := Prospective(r, disk, key)] == r.held;
    }
  }

  /** Registering a new name with a FIFO, its free creation lock and its
      bytes counted keeps the registry consistent. */
  lemma RegisterKeepsConsistent(r: Registry, key: Name, items: seq<seq<byte>>)
    requires Consistent(r) && key !in r.held
    ensures Consistent(r.(held := r.held[key := items], names := r.names + [key],
                          locks := r.locks[key := false], currentBytes := r.currentBytes + TotalLength(items)))
  {
    assert key !in r.names;
    DistinctSnoc(r.names, key);
    SumOverUpdate(r.names, r.held, key, items, ByteCount);
    SumOverSnoc(r.names, key, r.held[key := items], ByteCount);
  }

  /** `put` keeps `current_bytes` equal to the resident bytes: the stored
      value is appended to the name's FIFO, counted once, and no other FIFO
      changes. */
  lemma StoreKeepsConsistent(r: Registry, disk: Disk, key: Name, data: seq<byte>)
    requires Consistent(r)
    ensures Consistent(Stored(r, disk, key, data))
    ensures Resolves(r, key) ==>
              Stored(r, disk, key, data).held == r.held[key := Prospective(r, disk, key) + [data]]
    ensures Stored(r, disk, key, data).totalItems == r.totalItems + (if Resolves(r, key) then 1 else 0)
    ensures !Resolves(r, key) ==> Stored(r, disk, key, data) == r
  {
    if Resolves(r, key) {
      ResolveKeepsConsistent(r, disk, key);
      var t := Resolved(r, disk, key);
      var fifo := Prospective(r, disk, key);
      TotalLengthSnoc(fifo, data);
      ReplaceKeepsConsistent(t, key, fifo + [data]);
    }
  }

  /** Replacing the FIFO of a registered name keeps the registry consistent
      when `current_bytes` moves by the change in that FIFO's bytes. */
  lemma ReplaceKeepsConsistent(t: Registry, key: Name, fifo: seq<seq<byte>>)
    requires Consistent(t) && key in t.held
    ensures Consistent(t.(held := t.held[key := fifo],
                          currentBytes := t.currentBytes - TotalLength(t.held[key]) + TotalLength(fifo)))
  {
    assert key in t.names;
    SumOverUpdate(t.names, t.held, key, fifo, ByteCount);
  }

  /** `take` keeps `current_bytes` equal to the resident bytes: a hit removes
      the oldest item of the name's FIFO and a miss only counts. */
  lemma TakeKeepsConsistent(r: Registry, disk: Disk, key: Name)
    requires Consistent(r)
    ensures Consistent(Taken(r, disk, key).0)
  {
    ResolveKeepsConsistent(r, disk, key);
    var t := Resolved(r, disk, key);
    var fifo := Visible(r, disk, key);
    if fifo != [] {
      assert TotalLength(fifo) == |fifo[0]| + TotalLength(fifo[1..]);
      ReplaceKeepsConsistent(t, key, fifo[1..]);
    }
  }

  /** `take(key)` changes no other name's FIFO. */
  lemma TakeLeavesOtherNames(r: Registry, disk: Disk, key: Name)
    requires Consistent(r)
    ensures forall k | k != key && k in r.held :: k in Taken(r, disk, key).0.held && Taken(r, disk, key).0.held[k] == r.held[k]
  {
    ResolveKeepsConsistent(r, disk, key);
  }

  /** `take` returns the oldest item it can reach, and only when there is
      one; that item is then no longer reachable, and every call counts
      either a hit or a miss. */
  lemma TakeReturnsOldest(r: Registry, disk: Disk, key: Name)
    ensures Taken(r, disk, key).1.Some? <==> Visible(r, disk, key) != []
    ensures Taken(r, disk, key).1.Some? ==> Taken(r, disk, key).1.value == Visible(r, disk, key)[0]
    ensures Visible(Taken(r, disk, key).0, disk, key)
            == if Visible(r, disk, key) == [] then [] else Visible(r, disk, key)[1..]
    ensures Taken(r, disk, key).0.getHits + Taken(r, disk, key).0.getMisses == r.getHits + r.getMisses + 1
  {
  }

  /** Queues are FIFO: after `put(key, data)`, `take(key)` returns the oldest
      item the queue already held, or `data` if it held none. */
  lemma PutThenTake(r: Registry, disk: Disk, key: Name, data: seq<byte>)
    requires Resolves(r, key)
    ensures Visible(Stored(r, disk, key, data), disk, key) == Visible(r, disk, key) + [data]
    ensures Taken(Stored(r, disk, key, data), disk, key).1
            == Some(if Visible(r, disk, key) == [] then data else Visible(r, disk, key)[0])
  {
  }

  /** Once draining, no operation reaches a queue: `put` changes nothing and
      `take` only counts a miss. */
  lemma DrainingRefusesAll(r: Registry, disk: Disk, key: Name, data: seq<byte>)
    requires r.draining
    ensures Stored(r, disk, key, data) == r
    ensures Taken(r, disk, key) == (r.(getMisses := r.getMisses + 1), None)
  {
  }

  /** `get_queues` is idempotent: resolving a name twice is resolving it
      once, and what `put` and `take` do next is unaffected. */
  lemma ResolveIdempotent(r: Registry, disk: Disk, key: Name, data: seq<byte>)
    ensures Resolved(Resolved(r, disk, key), disk, key) == Resolved(r, disk, key)
    ensures Resolves(r, key) ==> Stored(Resolved(r, disk, key), disk, key, data) == Stored(r, disk, key, data)
    ensures Resolves(r, key) ==> Taken(Resolved(r, disk, key), disk, key) == Taken(r, disk, key)
  {
    if Resolves(r, key) && key !in r.held {
      var t := Resolved(r, disk, key);
      assert t.held[key := Recovered(disk, key)] == t.held;
      UpdateTwice(r.locks, key, false, false);
    }
  }

  /** Every registered name has a queue object of its own, named after it,
      whose log is open and whose FIFO is the name's. */
  ghost predicate Mirror(queues: map<Name, PersistentQueue>, held: map<Name, seq<seq<byte>>>)
    reads queues.Values
  {
    queues.Keys == held.Keys &&
    forall k | k in queues ::
      queues[k].name == k && queues[k].items == held[k] && queues[k].Valid() && queues[k].attached
  }

  /** What `get_stats(name)` returns: the counter map, one counter, or the
      KeyError raised for a name that is not a counter. */
  datatype StatsReply = AllCounters(counters: map<string, int>) | Counter(value: int) | NoSuchCounter

  /** The log files of a queue just opened on `file`. */
  function OpenedFiles(file: seq<byte>): LogFiles
  {
    LogFiles(file, [], |file|)
  }

  /** What `queue.put(data)` leaves in `q`, a queue whose log files were
      `files`, whose `total_items` was `total` and which was durable when
      `durable` held: the PUSH record appended to the live file (a push
      never rotates), one more item counted, and durability kept for a
      non-empty value. */
  ghost predicate PushedOn(q: PersistentQueue, data: seq<byte>, files: LogFiles, total: nat, durable: bool)
    reads q
  {
    |data| < U32Limit && q.Files() == Append(files, EncodeRecord(Push(data)), |q.items|) &&
    q.live == files.live + EncodeRecord(Push(data)) && q.archived == files.archived &&
    q.totalItems == total + 1 && q.attached &&
    (durable && |data| > 0 ==> q.Durable())
  }

  /** What `queue.get()` leaves in `q`: the POP record appended, with the
      rotation test on the size after the pop, the count of items ever
      pushed unchanged, and durability kept. */
  ghost predicate PoppedOn(q: PersistentQueue, files: LogFiles, total: nat, durable: bool)
    reads q
  {
    q.Files() == Append(files, EncodeRecord(Pop), |q.items|) &&
    q.totalItems == total && q.attached &&
    (durable ==> q.Durable())
  }

  class QueueCollection {
    const disk: Disk
    var queues: map<Name, PersistentQueue>
    /** The registry's names in insertion order: the order in which
        iterating the dictionary visits them. */
    var names: seq<Name>
    var locks: map<Name, bool>
    /** `shutdown_lock` is held. */
    var draining: bool
    var currentBytes: int
    var totalItems: nat
    var getMisses: nat
    var getHits: nat
    /** The FIFO of every registered queue. */
    ghost var held: map<Name, seq<seq<byte>>>

    ghost function Abs(): Registry
      reads this
    {
      Registry(held, names, locks, draining, currentBytes, totalItems, getMisses, getHits)
    }

    /** The registry is consistent and its queue objects hold its FIFOs. */
    ghost predicate Valid()
      reads this, queues.Values
    {
      Consistent(Abs()) && Mirror(queues, held)
    }

    /** `self.stats`. */
    function Stats(): map<string, int>
      reads this
    {
      map["current_bytes" := currentBytes, "total_items" := totalItems,
          "get_misses" := getMisses, "get_hits" := getHits]
    }

    /** The objects `put(key)` and `take(key)` may change besides the
        collection itself. */
    function QueueFrame(key: Name): set<object>
      reads this
    {
      if key in queues then {queues[key]} else {}
    }

    constructor (disk: Disk)
      ensures Valid() && this.disk == disk && queues == map[]
      ensures Abs() == Registry(map[], [], map[], false, 0, 0, 0, 0)
    {
      this.disk := disk;
      queues := map[];
      held := map[];
      names := [];
      locks := map[];
      draining := false;
      currentBytes := 0;
      totalItems := 0;
      getMisses := 0;
      getHits := 0;
    }

    /** The creating branch of `get_queues`: opens a queue on the name's log
        file, registers it, counts the bytes its replay recovered, and leaves
        the name's creation lock allocated and free. Calls are sequential, so
        the lock being held while the queue opens is not observable and only
        its release is recorded. */
    method Register(key: Name) returns (q: PersistentQueue)
      requires Valid() && Resolves(Abs(), key) && key !in queues
      modifies this
      ensures Valid() && Abs() == Resolved(old(Abs()), disk, key)
      ensures fresh(q) && queues == old(queues)[key := q]
      ensures q.live == DiskLog(disk, key) && q.archived == []
      ensures q.totalItems == Replay(DiskLog(disk, key)).pushes
      ensures WellFramed(DiskLog(disk, key)) ==> q.Durable()
    {
      q := new PersistentQueue.Open(key, DiskLog(disk, key));
      queues := queues[key := q];
      held := held[key := q.items];
      names := names + [key];
      currentBytes := currentBytes + q.initialBytes;
      locks := locks[key := false];
      Registered(key, q);
    }

    /** What registering `q` under `key` has changed keeps the collection
        valid, and is what resolving the name does to the registry. */
    twostate lemma Registered(key: Name, new q: PersistentQueue)
      requires old(Valid()) && old(Resolves(Abs(), key)) && key !in old(queues)
      requires forall k | k in old(queues) :: unchanged(old(queues)[k])
      requires q.name == key && q.Valid() && q.attached && q.items == Recovered(disk, key)
      requires q.initialBytes == TotalLength(q.items)
      requires queues == old(queues)[key := q] && held == old(held)[key := q.items]
      requires names == old(names) + [key] && locks == old(locks)[key := false]
      requires currentBytes == old(currentBytes) + q.initialBytes
      requires draining == old(draining) && totalItems == old(totalItems)
      requires getMisses == old(getMisses) && getHits == old(getHits)
      ensures Valid() && Abs() == Resolved(old(Abs()), disk, key)
    {
      ResolveKeepsConsistent(old(Abs()), disk, key);
      forall k | k in queues
        ensures queues[k].name == k && queues[k].items == held[k] && queues[k].Valid() && queues[k].attached
      {
        if k != key {
          assert old(queues)[k] == queues[k];
        }
      }
    }

    /** `get_queues(key)` for a non-empty name: null while draining or while
        another caller holds the name's creation lock; otherwise the
        registered queue, created from the log file on first use and never
        replaced afterwards. */
    method GetQueue(key: Name) returns (q: PersistentQueue?)
      requires Valid() && key != []
      modifies this
      ensures Valid() && Abs() == Resolved(old(Abs()), disk, key)
      ensures (q != null) == Resolves(old(Abs()), key)
      ensures q != null ==> key in queues && q == queues[key]
      ensures key in old(queues) || q == null ==> queues == old(queues)
      ensures key !in old(queues) && q != null ==>
                fresh(q) && queues == old(queues)[key := q] &&
                q.live == DiskLog(disk, key) && q.archived == [] &&
                q.totalItems == Replay(DiskLog(disk, key)).pushes &&
                (WellFramed(DiskLog(disk, key)) ==> q.Durable())
    {
      if draining {
        return null;
      }
      if key in queues {
        return queues[key];
      }
      if key in locks && locks[key] {
        return null;
      }
      q := Register(key);
    }

    /** `put(key, data)`: true once `data` is enqueued on the named queue and
        counted; false, changing nothing, when the name does not resolve. */
    method Put(key: Name, data: seq<byte>) returns (ok: bool)
      requires Valid() && key != [] && |data| < U32Limit
      modifies this, QueueFrame(key)
      ensures Valid() && Abs() == Stored(old(Abs()), disk, key, data)
      ensures ok == Resolves(old(Abs()), key)
      ensures forall k | k in old(queues) :: k in queues && queues[k] == old(queues[k])
      ensures ok && key in old(queues) ==> PushedOn(queues[key], data, old(queues[key].Files()),
                                                    old(queues[key].totalItems), old(queues[key].Durable()))
      ensures ok && key !in old(queues) ==> PushedOn(queues[key], data, OpenedFiles(DiskLog(disk, key)),
                                                     Replay(DiskLog(disk, key)).pushes, WellFramed(DiskLog(disk, key)))
    {
      ResolveIdempotent(Abs(), disk, key, data);
      var q := GetQueue(key);
      if q == null {
        return false;
      }
      Enqueue(key, q, data);
      return true;
    }

    /** The rest of `put` once the queue is found: count the value, then
        push it through the queue's log. */
    method Enqueue(key: Name, q: PersistentQueue, data: seq<byte>)
      requires Valid() && !draining && key in queues && q == queues[key] && |data| < U32Limit
      modifies this, q
      ensures Valid() && Abs() == Stored(old(Abs()), disk, key, data) && queues == old(queues)
      ensures PushedOn(q, data, old(q.Files()), old(q.totalItems), old(q.Durable()))
    {
      assert forall k | k in queues && k != key :: queues[k] != q;
      currentBytes := currentBytes + |data|;
      totalItems := totalItems + 1;
      var stored := q.DurablePut(data);
      held := held[key := held[key] + [data]];
      Enqueued(key, data);
    }

    twostate lemma Enqueued(key: Name, new data: seq<byte>)
      requires old(Valid()) && !old(draining) && key in old(queues)
      requires queues == old(queues) && names == old(names) && locks == old(locks)
      requires draining == old(draining) && getMisses == old(getMisses) && getHits == old(getHits)
      requires currentBytes == old(currentBytes) + |data| && totalItems == old(totalItems) + 1
      requires held == old(held)[key := old(held)[key] + [data]]
      requires forall k | k in queues && k != key :: unchanged(queues[k])
      requires queues[key].Valid() && queues[key].attached
      requires queues[key].items == old(queues[key].items) + [data]
      ensures Valid() && Abs() == Stored(old(Abs()), disk, key, data)
    {
      StoreKeepsConsistent(old(Abs()), disk, key, data);
      forall k | k in queues
        ensures queues[k].name == k && queues[k].items == held[k] && queues[k].Valid() && queues[k].attached
      {
        if k != key {
          assert old(queues[k].items) == old(held)[k];
        }
      }
    }

    /** `take(key)`: the oldest item of the named queue, counted as a hit; or
        None, counted as a miss, when the name does not resolve or its queue
        is empty. */
    method Take(key: Name) returns (r: Option<seq<byte>>)
      requires Valid() && key != []
      modifies this, QueueFrame(key)
      ensures Valid() && (Abs(), r) == Taken(old(Abs()), disk, key)
      ensures forall k | k in old(queues) :: k in queues && queues[k] == old(queues[k])
      ensures key in queues && key !in old(queues) ==> fresh(queues[key])
      ensures r.Some? && key in old(queues) ==> PoppedOn(queues[key], old(queues[key].Files()),
                                                         old(queues[key].totalItems), old(queues[key].Durable()))
      ensures r.Some? && key !in old(queues) ==> PoppedOn(queues[key], OpenedFiles(DiskLog(disk, key)),
                                                          Replay(DiskLog(disk, key)).pushes, WellFramed(DiskLog(disk, key)))
    {
      ResolveIdempotent(Abs(), disk, key, []);
      ResolveKeepsConsistent(Abs(), disk, key);
      var q := GetQueue(key);
      if q == null || q.QSize() == 0 {
        CountMiss(key);
        return None;
      }
      r := Dequeue(key, q);
    }

    /** A `take` that finds nothing once the name is looked up: only the
        miss counter moves. */
    method CountMiss(key: Name)
      requires Valid() && Visible(Abs(), disk, key) == [] && (Resolves(Abs(), key) ==> key in held)
      modifies this
      ensures Valid() && queues == old(queues)
      ensures (Abs(), None) == Taken(old(Abs()), disk, key)
    {
      getMisses := getMisses + 1;
    }

    /** The rest of `take` once a non-empty queue is found: count the hit,
        pop the oldest item through the queue's log, and uncount its bytes. */
    method Dequeue(key: Name, q: PersistentQueue) returns (r: Option<seq<byte>>)
      requires Valid() && !draining && key in queues && q == queues[key] && q.items != []
      modifies this, q
      ensures Valid() && (Abs(), r) == Taken(old(Abs()), disk, key) && queues == old(queues)
      ensures PoppedOn(q, old(q.Files()), old(q.totalItems), old(q.Durable()))
    {
      assert forall k | k in queues && k != key :: queues[k] != q;
      getHits := getHits + 1;
      var got := q.Get();
      var result := got.value;
      currentBytes := currentBytes - |result|;
      held := held[key := held[key][1..]];
      Dequeued(key);
      return Some(result);
    }

    twostate lemma Dequeued(key: Name)
      requires old(Valid()) && !old(draining) && key in old(queues) && old(held)[key] != []
      requires queues == old(queues) && names == old(names) && locks == old(locks)
      requires draining == old(draining) && getMisses == old(getMisses) && getHits == old(getHits) + 1
      requires totalItems == old(totalItems) && currentBytes == old(currentBytes) - |old(held)[key][0]|
      requires held == old(held)[key := old(held)[key][1..]]
      requires forall k | k in queues && k != key :: unchanged(queues[k])
      requires queues[key].Valid() && queues[key].attached
      requires queues[key].items == old(queues[key].items)[1..]
      ensures Valid() && Abs() == Taken(old(Abs()), disk, key).0
    {
      TakeKeepsConsistent(old(Abs()), disk, key);
      forall k | k in queues
        ensures queues[k].name == k && queues[k].items == held[k] && queues[k].Valid() && queues[k].attached
      {
        if k != key {
          assert old(queues[k].items) == old(held)[k];
        }
      }
    }

    /** `_current_size()`: the number of items across all queues. */
    method CurrentSize() returns (size: nat)
      requires Valid()
      ensures size == SumOver(names, held, ItemCount)
      ensures size == 0 <==> forall k | k in queues :: queues[k].items == []
    {
      size := 0;
      var i := 0;
      while i < |names|
        invariant 0 <= i <= |names|
        invariant size == SumOver(names[..i], held, ItemCount)
      {
        SumOverSnoc(names[..i], names[i], held, ItemCount);
        assert names[..i + 1] == names[..i] + [names[i]];
        size := size + queues[names[i]].QSize();
        i := i + 1;
      }
      assert names[..i] == names;
      NoItemsHeld(names, held);
    }

    /** `get_stats(name)`, the empty name standing for no name. */
    method GetStats(name: string) returns (r: StatsReply)
      requires Valid()
      ensures name == "" ==> r == AllCounters(Stats())
      ensures name == "current_size" ==> r == Counter(SumOver(names, held, ItemCount))
      ensures name != "" && name != "current_size" ==>
                r == if name in Stats() then Counter(Stats()[name]) else NoSuchCounter
    {
      if name == "" {
        return AllCounters(Stats());
      } else if name == "current_size" {
        var size := CurrentSize();
        return Counter(size);
      } else if name in Stats() {
        return Counter(Stats()[name]);
      }
      return NoSuchCounter;
    }

    /** `close()`: takes the shutdown lock, after which no name resolves.
        The lock is never released, so a second close would wait forever:
        the collection must not be draining yet. */
    method Close()
      requires Valid() && !draining
      modifies this
      ensures Valid() && queues == old(queues)
      ensures Abs() == old(Abs()).(draining := true)
    {
      draining := true;
    }
  }
}
