/** The transaction log of one persistent queue (peafowl/queue.py): the
    on-disk record format, what replaying a log file rebuilds, and what one
    logged append does to the live file and to the archived (rotated) files.
    Everything here is a value; the queue object that owns a log is in
    module Queue. */
module TransactionLog {
  import opened Bytes

  /** A live log longer than this is rotated as soon as the queue is empty. */
  const SoftLogMaxSize: nat := 16 * 1024 * 1024

  const PushTag: byte := 0
  const PopTag: byte := 1

  /** One logged operation on the FIFO. */
  datatype Record = Push(value: seq<byte>) | Pop

  /** `pack("I", len(value))` raises for values of 4 GiB or more. */
  predicate Encodable(r: Record) { r.Push? ==> |r.value| < U32Limit }

  /** PUSH is the tag 0x00, the value's length in four bytes, then the value;
      POP is the tag 0x01 alone. */
  function EncodeRecord(r: Record): (b: seq<byte>)
    requires Encodable(r)
    ensures 0 < |b| && b[0] == (if r.Push? then PushTag else PopTag)
    ensures r.Push? ==> |b| == 5 + |r.value| && b[1..5] == LE32(|r.value|) && b[5..] == r.value
    ensures r.Pop? ==> b == [PopTag]
  {
    match r
    case Push(v) => [PushTag] + LE32(|v|) + v
    case Pop => [PopTag]
  }

  function EncodeRecords(rs: seq<Record>): seq<byte>
    requires NonEmptyPushes(rs)
  {
    if rs == [] then [] else EncodeRecord(rs[0]) + EncodeRecords(rs[1..])
  }

  // ---------------------------------------------------------------------
  // Replay

  /** What reading a log file back gives: the rebuilt FIFO, the net byte count
      and the number of non-logging puts made, or the exception that escapes
      (a size field shorter than four bytes makes `unpack` raise; a POP on an
      empty FIFO makes the non-blocking `get` raise `Empty`). */
  datatype ReplayOutcome =
    | Replayed(items: seq<seq<byte>>, bytesRead: int, pushes: nat)
    | SizeFieldTruncated
    | PopFromEmpty

  /** Replay of the unread bytes `rest` from the FIFO `items`, having counted
      `bytesRead` bytes and made `pushes` puts so far. A PUSH reads up to the
      declared number of bytes (short at end of file) and pushes nothing when
      that read is empty; any tag other than PUSH or POP is skipped. */
  function ReplayRest(rest: seq<byte>, items: seq<seq<byte>>, bytesRead: int, pushes: nat): ReplayOutcome
    decreases |rest|, 1
  {
    if rest == [] then Replayed(items, bytesRead, pushes)
    else if rest[0] == PushTag then ReplayPush(rest, items, bytesRead, pushes)
    else if rest[0] == PopTag then
      if items == [] then PopFromEmpty
      else ReplayRest(rest[1..], items[1..], bytesRead - |items[0]|, pushes)
    else ReplayRest(rest[1..], items, bytesRead, pushes)
  }

  /** The PUSH branch of the replay loop, `rest` starting with the PUSH tag:
      read the four-byte size, then up to that many bytes of value. */
  function ReplayPush(rest: seq<byte>, items: seq<seq<byte>>, bytesRead: int, pushes: nat): ReplayOutcome
    requires rest != []
    decreases |rest|, 0
  {
    if |rest| < 5 then SizeFieldTruncated
    else
      var end := Min(5 + FromLE32(rest[1..5]), |rest|);
      var data := rest[5..end];
      if data == [] then ReplayRest(rest[end..], items, bytesRead, pushes)
      else ReplayRest(rest[end..], items + [data], bytesRead + |data|, pushes + 1)
  }

  /** `_replay_transaction_log` on a file holding `log`, from an empty FIFO. */
  function Replay(log: seq<byte>): ReplayOutcome
  {
    ReplayRest(log, [], 0, 0)
  }

  /** Replay continued over `b` from where an earlier replay stopped. */
  function Continue(o: ReplayOutcome, b: seq<byte>): ReplayOutcome
  {
    if o.Replayed? then ReplayRest(b, o.items, o.bytesRead, o.pushes) else o
  }

  /** A log that ends on a record boundary: every PUSH has its whole value. */
  predicate WellFramed(rest: seq<byte>)
    decreases |rest|
  {
    if rest == [] then true
    else if rest[0] == PushTag then
      |rest| >= 5 && 5 + FromLE32(rest[1..5]) <= |rest| && WellFramed(rest[5 + FromLE32(rest[1..5])..])
    else WellFramed(rest[1..])
  }

  /** The FIFO semantics the log mirrors: a push appends, a pop removes the
      oldest item and is invalid on an empty FIFO. */
  function Run(rs: seq<Record>, items: seq<seq<byte>>): Option<seq<seq<byte>>>
  {
    if rs == [] then Some(items)
    else match rs[0]
      case Push(v) => Run(rs[1..], items + [v])
      case Pop => if items == [] then None else Run(rs[1..], items[1..])
  }

  function PushCount(rs: seq<Record>): nat
  {
    if rs == [] then 0 else (if rs[0].Push? then 1 else 0) + PushCount(rs[1..])
  }

  /** Every pushed value is non-empty and encodable. */
  predicate NonEmptyPushes(rs: seq<Record>)
  {
    rs != [] ==> (rs[0].Push? ==> 0 < |rs[0].value| < U32Limit) && NonEmptyPushes(rs[1..])
  }

  /** Replaying one well-formed record followed by anything. */
  lemma ReplayRecord(r: Record, tail: seq<byte>, items: seq<seq<byte>>, bytesRead: int, pushes: nat)
    requires Encodable(r)
    requires r.Push? ==> r.value != []
    requires r.Pop? ==> items != []
    ensures r.Push? ==> ReplayRest(EncodeRecord(r) + tail, items, bytesRead, pushes)
                        == ReplayRest(tail, items + [r.value], bytesRead + |r.value|, pushes + 1)
    ensures r.Pop? ==> ReplayRest(EncodeRecord(r) + tail, items, bytesRead, pushes)
                       == ReplayRest(tail, items[1..], bytesRead - |items[0]|, pushes)
  {
    var rest := EncodeRecord(r) + tail;
    if r.Push? {
      var v := r.value;
      assert rest[1..5] == LE32(|v|);
      LE32RoundTrip(|v|);
      assert rest[5..5 + |v|] == v;
      assert rest[5 + |v|..] == tail;
    } else {
      assert rest[1..] == tail;
    }
  }

  lemma {:induction false} ReplayEncodedRecords(rs: seq<Record>, items: seq<seq<byte>>, out: seq<seq<byte>>,
                                                bytesRead: int, pushes: nat)
    requires NonEmptyPushes(rs) && Run(rs, items) == Some(out)
    ensures ReplayRest(EncodeRecords(rs), items, bytesRead, pushes).Replayed?
    ensures ReplayRest(EncodeRecords(rs), items, bytesRead, pushes).items == out
    ensures ReplayRest(EncodeRecords(rs), items, bytesRead, pushes).pushes == pushes + PushCount(rs)
  {
    if rs != [] {
      var r := rs[0];
      var tail := EncodeRecords(rs[1..]);
      ReplayRecord(r, tail, items, bytesRead, pushes);
      if r.Push? {
        var next := items + [r.value];
        assert ReplayRest(EncodeRecords(rs), items, bytesRead, pushes)
               == ReplayRest(tail, next, bytesRead + |r.value|, pushes + 1);
        ReplayEncodedRecords(rs[1..], next, out, bytesRead + |r.value|, pushes + 1);
      } else {
        assert ReplayRest(EncodeRecords(rs), items, bytesRead, pushes)
               == ReplayRest(tail, items[1..], bytesRead - |items[0]|, pushes);
        ReplayEncodedRecords(rs[1..], items[1..], out, bytesRead - |items[0]|, pushes);
      }
    }
  }

  /** Round trip: replaying the log of any valid sequence of operations whose
      pushed values are non-empty rebuilds exactly the FIFO those operations
      produce, and the byte count returned is that FIFO's total length. */
  lemma ReplayRoundTrip(rs: seq<Record>)
    requires NonEmptyPushes(rs) && Run(rs, []).Some?
    ensures Replay(EncodeRecords(rs))
            == Replayed(Run(rs, []).value, TotalLength(Run(rs, []).value), PushCount(rs))
  {
    ReplayEncodedRecords(rs, [], Run(rs, []).value, 0, 0);
    ReplayBytesRead(EncodeRecords(rs), [], 0, 0);
  }

  /** Whatever the file holds: the byte count replay returns is the total
      length of the items it leaves in the FIFO. */
  lemma {:induction false} ReplayBytesRead(rest: seq<byte>, items: seq<seq<byte>>, bytesRead: int, pushes: nat)
    requires bytesRead == TotalLength(items)
    requires ReplayRest(rest, items, bytesRead, pushes).Replayed?
    ensures ReplayRest(rest, items, bytesRead, pushes).bytesRead
            == TotalLength(ReplayRest(rest, items, bytesRead, pushes).items)
    decreases |rest|
  {
    if rest != [] {
      if rest[0] == PushTag {
        var end := Min(5 + FromLE32(rest[1..5]), |rest|);
        var data := rest[5..end];
        if data == [] {
          ReplayBytesRead(rest[end..], items, bytesRead, pushes);
        } else {
          TotalLengthSnoc(items, data);
          ReplayBytesRead(rest[end..], items + [data], bytesRead + |data|, pushes + 1);
        }
      } else if rest[0] == PopTag {
        ReplayBytesRead(rest[1..], items[1..], bytesRead - |items[0]|, pushes);
      } else {
        ReplayBytesRead(rest[1..], items, bytesRead, pushes);
      }
    }
  }

  /** Replay reads a well-framed prefix record by record, so what follows it
      is replayed from the state the prefix leaves. */
  lemma {:induction false} ReplayConcat(a: seq<byte>, b: seq<byte>, items: seq<seq<byte>>, bytesRead: int, pushes: nat)
    requires WellFramed(a)
    ensures ReplayRest(a + b, items, bytesRead, pushes) == Continue(ReplayRest(a, items, bytesRead, pushes), b)
    decreases |a|
  {
    if a == [] {
      assert a + b == b;
    } else if a[0] == PushTag {
      var ab := a + b;
      assert ab[1..5] == a[1..5];
      var end := 5 + FromLE32(a[1..5]);
      assert ab[5..end] == a[5..end];
      assert ab[end..] == a[end..] + b;
      var data := a[5..end];
      if data == [] {
        ReplayConcat(a[end..], b, items, bytesRead, pushes);
      } else {
        ReplayConcat(a[end..], b, items + [data], bytesRead + |data|, pushes + 1);
      }
    } else {
      assert (a + b)[1..] == a[1..] + b;
      if a[0] == PopTag {
        if items != [] {
          ReplayConcat(a[1..], b, items[1..], bytesRead - |items[0]|, pushes);
        }
      } else {
        ReplayConcat(a[1..], b, items, bytesRead, pushes);
      }
    }
  }

  lemma {:induction false} WellFramedConcat(a: seq<byte>, b: seq<byte>)
    requires WellFramed(a) && WellFramed(b)
    ensures WellFramed(a + b)
    decreases |a|
  {
    if a == [] {
      assert a + b == b;
    } else if a[0] == PushTag {
      var ab := a + b;
      assert ab[1..5] == a[1..5];
      var end := 5 + FromLE32(a[1..5]);
      assert end <= |a|;
      assert ab[end..] == a[end..] + b by {
        forall i | 0 <= i < |ab| - end ensures ab[end..][i] == (a[end..] + b)[i] {
          assert ab[end..][i] == ab[end + i];
          if i < |a| - end {
            assert ab[end + i] == a[end + i];
            assert (a[end..] + b)[i] == a[end..][i] == a[end + i];
          } else {
            assert ab[end + i] == b[end + i - |a|];
            assert (a[end..] + b)[i] == b[i - (|a| - end)];
          }
        }
      }
      WellFramedConcat(a[end..], b);
    } else {
      assert (a + b)[1..] == a[1..] + b;
      WellFramedConcat(a[1..], b);
    }
  }

  lemma RecordWellFramed(r: Record)
    requires Encodable(r)
    ensures WellFramed(EncodeRecord(r))
  {
    var b := EncodeRecord(r);
    if r.Push? {
      LE32RoundTrip(|r.value|);
      assert b[5 + |r.value|..] == [];
    } else {
      assert b[1..] == [];
    }
  }

  /** The live log replays to exactly the FIFO currently held in memory. */
  predicate Mirrors(log: seq<byte>, items: seq<seq<byte>>)
  {
    WellFramed(log) && Replay(log).Replayed? && Replay(log).items == items
  }

  /** Appending a PUSH record of a non-empty value to a mirroring log mirrors
      the FIFO with that value enqueued. */
  lemma MirrorsPush(log: seq<byte>, items: seq<seq<byte>>, v: seq<byte>)
    requires Mirrors(log, items) && 0 < |v| < U32Limit
    ensures Mirrors(log + EncodeRecord(Push(v)), items + [v])
  {
    var rec := EncodeRecord(Push(v));
    RecordWellFramed(Push(v));
    WellFramedConcat(log, rec);
    ReplayConcat(log, rec, [], 0, 0);
    ReplayRecord(Push(v), [], items, Replay(log).bytesRead, Replay(log).pushes);
    assert rec + [] == rec;
  }

  /** Appending a POP record to a mirroring log mirrors the FIFO with its
      oldest item removed. */
  lemma MirrorsPop(log: seq<byte>, items: seq<seq<byte>>)
    requires Mirrors(log, items) && items != []
    ensures Mirrors(log + EncodeRecord(Pop), items[1..])
  {
    var rec := EncodeRecord(Pop);
    RecordWellFramed(Pop);
    WellFramedConcat(log, rec);
    ReplayConcat(log, rec, [], 0, 0);
    ReplayRecord(Pop, [], items, Replay(log).bytesRead, Replay(log).pushes);
    assert rec + [] == rec;
  }

  /** A PUSH record of an empty value is logged but replays to nothing, so a
      FIFO holding an empty value is not mirrored by its log. */
  lemma EmptyPushReplaysToNothing(log: seq<byte>, items: seq<seq<byte>>)
    requires Mirrors(log, items)
    ensures Mirrors(log + EncodeRecord(Push([])), items)
    ensures !Mirrors(log + EncodeRecord(Push([])), items + [[]])
  {
    var rec := EncodeRecord(Push([]));
    RecordWellFramed(Push([]));
    WellFramedConcat(log, rec);
    ReplayConcat(log, rec, [], 0, 0);
    var o := Replay(log);
    LE32RoundTrip(0);
    assert rec[1..5] == LE32(0);
    assert rec[5..] == [];
    assert ReplayRest(rec, o.items, o.bytesRead, o.pushes) == Replayed(o.items, o.bytesRead, o.pushes);
    assert |items + [[]]| != |items|;
  }

  // ---------------------------------------------------------------------
  // Appending and rotating

  /** The log files of one queue: the live file's contents, the archived
      files in rotation order, and the running `log_size`. */
  datatype LogFiles = LogFiles(live: seq<byte>, archived: seq<seq<byte>>, size: nat)

  /** `_transaction` rotates after writing when the log has grown past the soft
      limit and the FIFO (as it stands at that moment) is empty. */
  predicate Rotates(size: nat, record: seq<byte>, resident: nat)
  {
    size + |record| > SoftLogMaxSize && resident == 0
  }

  /** One `_transaction(record)` with `resident` items in the FIFO when the
      rotation test runs: write, count the bytes, and rotate if due, which
      archives the file and starts a fresh empty one. */
  function Append(f: LogFiles, record: seq<byte>, resident: nat): LogFiles
  {
    if Rotates(f.size, record, resident) then LogFiles([], f.archived + [f.live + record], 0)
    else LogFiles(f.live + record, f.archived, f.size + |record|)
  }

  /** Rotation loses no record: the archives in rotation order followed by the
      live file hold every byte ever written, and `log_size` stays the live
      file's length. */
  lemma AppendKeepsHistory(f: LogFiles, record: seq<byte>, resident: nat)
    requires f.size == |f.live|
    ensures Flatten(Append(f, record, resident).archived) + Append(f, record, resident).live
            == Flatten(f.archived) + f.live + record
    ensures Append(f, record, resident).size == |Append(f, record, resident).live|
    ensures Append(f, record, resident).size == if Rotates(f.size, record, resident) then 0 else f.size + |record|
  {
    if Rotates(f.size, record, resident) {
      FlattenSnoc(f.archived, f.live + record);
    }
  }

  /** As written, `put` runs the rotation test before the item is in the FIFO:
      when that rotates, the item's PUSH record goes to the archive and the
      fresh live log no longer mirrors the FIFO, which holds the item. */
  lemma PushRotationLosesItem(f: LogFiles, items: seq<seq<byte>>, v: seq<byte>)
    requires |v| < U32Limit
    requires Rotates(f.size, EncodeRecord(Push(v)), |items|)
    ensures Append(f, EncodeRecord(Push(v)), |items|).live == []
    ensures !Mirrors(Append(f, EncodeRecord(Push(v)), |items|).live, items + [v])
  {
    assert Replay([]) == Replayed([], 0, 0);
    assert |items + [v]| == 1;
  }

  /** With the pushed item counted before the rotation test (a push then never
      rotates), a logged push of a non-empty value keeps the live log
      mirroring the FIFO. */
  lemma DurablePushMirrors(f: LogFiles, items: seq<seq<byte>>, v: seq<byte>)
    requires Mirrors(f.live, items) && 0 < |v| < U32Limit
    ensures Mirrors(Append(f, EncodeRecord(Push(v)), |items| + 1).live, items + [v])
  {
    MirrorsPush(f.live, items, v);
  }

  /** A logged pop keeps the live log mirroring the FIFO, rotating or not. */
  lemma PopMirrors(f: LogFiles, items: seq<seq<byte>>)
    requires Mirrors(f.live, items) && items != []
    ensures Mirrors(Append(f, EncodeRecord(Pop), |items| - 1).live, items[1..])
  {
    if Rotates(f.size, EncodeRecord(Pop), |items| - 1) {
      assert Replay([]) == Replayed([], 0, 0);
      assert items[1..] == [];
    } else {
      MirrorsPop(f.live, items);
    }
  }
}
