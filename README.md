# peafowl, modelled in Dafny

peafowl is a small queue broker that speaks a subset of the memcached text
protocol: `set <queue> <flags> <expiry> <length>` enqueues a value on a named
queue, `get <queue>` dequeues the oldest value that has not expired, and
`stats` reports counters. Each queue is an in-memory FIFO backed by an
append-only transaction log, which is replayed when the queue is opened.

This project models the three sequential pieces of that broker and proves
properties of them:

- **Transaction log and persistent queue** (`peafowl/queue.py`): modules
  `TransactionLog` (record format, replay, append and rotation, as values)
  and `Queue` (the replay loop and class `PersistentQueue`, whose methods
  update the FIFO, the live log file, the archived log files, `log_size`
  and `total_items` in place).
- **Queue collection** (`peafowl/collection.py`): module `Collection`. The
  registry is a value `Registry` with the operations `Resolved`, `Stored`
  and `Taken` stated on it, and the class `QueueCollection` has methods
  proved to move its abstract state exactly as those functions say. Locks
  are booleans; the queue directory is a map `disk` from name to log file.
- **Protocol handler** (`peafowl/handler.py`): module `Protocol` (command
  line classification, the `"!II%sp"` item codec, the replies, what the GET
  loop does to the items it takes, the per-queue STATS text) and module
  `ProtocolHandler` (a connection's session as a value, with `SetStep`,
  `GetStep` and `DispatchStep`, and the class `Handler`, whose methods are
  proved to equal those functions). The socket is modelled by the unread
  input and the bytes sent; the clock is a parameter `now`.

`bytes.dfy` holds shared byte-string helpers: fixed-width integers, decimal
text and sums over lists of strings.

## Model

| member | source | states |
|---|---|---|
| Bytes.LE32RoundTrip | peafowl/queue.py:44 | the four-byte little-endian size field reads back as the length written |
| Bytes.BE32RoundTrip | peafowl/handler.py:118 | network-order flags and expiry read back as written |
| Bytes.ParseDecimal | peafowl/handler.py:13 | the `%d` text of a number parses back to that number |
| TransactionLog.EncodeRecord | peafowl/queue.py:8-12 | a PUSH record is tag 0x00, the 4-byte length, then the value; a POP record is the single byte 0x01 |
| TransactionLog.ReplayRecord | peafowl/queue.py:90-101 | replaying one encoded record pushes its value (counting its bytes and one put) or pops the oldest item (uncounting its bytes) and continues after it |
| TransactionLog.ReplayEncodedRecords | peafowl/queue.py:86-103 | replaying the encoding of a valid operation sequence yields exactly the FIFO those operations produce, with one put counted per PUSH |
| TransactionLog.ReplayRoundTrip | peafowl/queue.py:81-105 | from an empty FIFO, replay of an encoded valid sequence returns that FIFO, its total length as `bytes_read`, and the number of pushes |
| TransactionLog.ReplayBytesRead | peafowl/queue.py:98-101 | for any file that replays without error, the returned byte count is the total length of the items left in the FIFO |
| TransactionLog.ReplayConcat | peafowl/queue.py:86-103 | a file made of a record-aligned prefix and a rest replays as the prefix followed by the rest replayed from where the prefix left off |
| TransactionLog.WellFramedConcat | peafowl/queue.py:86-103 | two record-aligned logs one after the other are record-aligned |
| TransactionLog.RecordWellFramed | peafowl/queue.py:44-45 | every encoded record is record-aligned on its own |
| TransactionLog.MirrorsPush | peafowl/queue.py:44-47 | appending a PUSH of a non-empty value to a log that replays to the FIFO gives a log that replays to the FIFO with the value enqueued |
| TransactionLog.MirrorsPop | peafowl/queue.py:53-57 | appending a POP to a log that replays to a non-empty FIFO gives a log that replays to the FIFO without its oldest item |
| TransactionLog.EmptyPushReplaysToNothing | peafowl/queue.py:94-96 | a PUSH of an empty value is logged but replays to nothing, so a FIFO holding an empty value is not recovered |
| TransactionLog.AppendKeepsHistory | peafowl/queue.py:113-117 | after a write, archived files in rotation order plus the live file hold every byte ever written; `log_size` is the live file's length, 0 right after a rotation, and rotation happens only past 16 MiB with an empty FIFO |
| TransactionLog.PushRotationLosesItem | peafowl/queue.py:45-47 | as written, a push that triggers rotation leaves an empty live log that does not replay to the FIFO holding the pushed value |
| TransactionLog.DurablePushMirrors | peafowl/queue.py:45-47 | when the pushed value is counted before the rotation test, the live log keeps replaying to the FIFO after a push |
| TransactionLog.PopMirrors | peafowl/queue.py:53-58 | a logged pop keeps the live log replaying to the FIFO, whether it rotates or not |
| Queue.ReplayLog | peafowl/queue.py:81-105 | the read loop over a log file returns the replay of the whole file, including the two exceptions |
| Queue.PersistentQueue.Open | peafowl/queue.py:23-34 | opening a queue on a file replays it into the FIFO and sets `total_items` to the puts made and `initial_bytes` to the bytes recovered; a record-aligned file leaves the queue durable |
| Queue.PersistentQueue.RotateLog | peafowl/queue.py:69-72 | the live file is archived after the earlier ones, a fresh empty file starts and `log_size` is 0; the FIFO is untouched |
| Queue.PersistentQueue.Transaction | peafowl/queue.py:107-119 | the record is written and counted in `log_size`, rotating exactly when the log passes the soft limit with an empty FIFO; no byte written is lost |
| Queue.PersistentQueue.Put | peafowl/queue.py:36-47 | as written: with a detached log nothing changes (the raise); otherwise the PUSH record is appended with the rotation test run before the value is enqueued, `total_items` grows by 1, and durability is kept only when no rotation happens |
| Queue.PersistentQueue.DurablePut | peafowl/queue.py:36-47 | the corrected put: the value is enqueued and counted, its PUSH record lands in the live file, and a durable queue stays durable |
| Queue.PersistentQueue.Get | peafowl/queue.py:49-58 | with a detached log nothing changes (the raise); otherwise the oldest item is removed and returned, then a POP record is appended, and durability is kept |
| Queue.PersistentQueue.Close | peafowl/queue.py:60-67 | the log is detached and nothing else changes |
| Collection.NoItemsHeld | peafowl/collection.py:98-102 | the item count over the registry is 0 exactly when every FIFO is empty |
| Collection.ResolveKeepsConsistent | peafowl/collection.py:54-70 | looking a name up keeps the registry consistent; a resolving name ends up registered with its FIFO, a new one adds its recovered bytes to `current_bytes`, and a name that does not resolve changes nothing |
| Collection.RegisterKeepsConsistent | peafowl/collection.py:63-67 | registering a new name with its free creation lock and its bytes counted keeps `current_bytes` equal to the resident bytes |
| Collection.StoreKeepsConsistent | peafowl/collection.py:18-28 | `put` appends the value to the name's FIFO only, counts it once in `total_items` and in `current_bytes`, and changes nothing when the name does not resolve |
| Collection.ReplaceKeepsConsistent | peafowl/collection.py:39-41 | replacing one registered FIFO and moving `current_bytes` by the change in its bytes keeps the registry consistent |
| Collection.TakeKeepsConsistent | peafowl/collection.py:30-42 | `take` keeps `current_bytes` equal to the resident bytes |
| Collection.TakeLeavesOtherNames | peafowl/collection.py:30-42 | `take` leaves every other name's FIFO unchanged |
| Collection.TakeReturnsOldest | peafowl/collection.py:30-42 | `take` returns a value exactly when the reachable FIFO is non-empty, that value is the oldest item, it is then no longer reachable, and exactly one of hits and misses is counted |
| Collection.PutThenTake | peafowl/collection.py:18-42 | after `put(key, data)` the reachable FIFO is the old one plus `data`, and `take` returns the oldest old item or `data` |
| Collection.DrainingRefusesAll | peafowl/collection.py:48-49 | once the shutdown lock is held, `put` changes nothing and `take` only counts a miss |
| Collection.ResolveIdempotent | peafowl/collection.py:54-55 | looking a name up twice is looking it up once, so `put` and `take` behave the same after a lookup |
| Collection.QueueCollection.constructor | peafowl/collection.py:9-16 | a new collection has no queues, no locks, is not draining and has all counters at 0 |
| Collection.QueueCollection.Register | peafowl/collection.py:63-67 | a new queue object is created on the name's log file and registered, and its initial bytes are counted; it starts with the file as its live log, the replayed push count as `total_items`, and is durable when the file is record-aligned |
| Collection.QueueCollection.GetQueue | peafowl/collection.py:44-70 | `get_queues(key)` returns null while draining or while the name's creation lock is held; otherwise the registered queue, created once on first use (with the log, count and durability `Register` gives it) and never replaced |
| Collection.QueueCollection.Put | peafowl/collection.py:18-28 | the registry moves as `Stored` says, the result is whether the name resolved, and no existing queue object is replaced; on success the named queue (old or just opened) has the PUSH record appended to its live log, `total_items` one higher and its durability kept for a non-empty value (`PushedOn`) |
| Collection.QueueCollection.Enqueue | peafowl/collection.py:25-27 | the registry moves as `Stored` says, and the queue has the PUSH record appended to its live log without rotation, `total_items` one higher and its durability kept for a non-empty value (`PushedOn`) |
| Collection.QueueCollection.Take | peafowl/collection.py:30-42 | the registry and the result are as `Taken` says, and no existing queue object is replaced; on a hit the named queue (old or just opened) has the POP record appended with the rotation test on its new size, `total_items` unchanged and its durability kept (`PoppedOn`) |
| Collection.QueueCollection.CountMiss | peafowl/collection.py:35-37 | a take that finds nothing counts only a miss |
| Collection.QueueCollection.Dequeue | peafowl/collection.py:38-42 | a hit is counted, the oldest item popped and uncounted from `current_bytes` as `Taken` says, and the queue has the POP record appended with the rotation test on its new size, `total_items` unchanged and its durability kept (`PoppedOn`) |
| Collection.QueueCollection.CurrentSize | peafowl/collection.py:98-102 | the loop returns the number of items across all queues, which is 0 exactly when every queue is empty |
| Collection.QueueCollection.GetStats | peafowl/collection.py:72-87 | no name gives the whole counter map, `current_size` the item count, a counter name its value, and any other name the KeyError |
| Collection.QueueCollection.Close | peafowl/collection.py:89-93 | the shutdown lock, free until now, is taken and nothing else changes |
| Protocol.BeforeLineEndIff | peafowl/handler.py:12 | the `\r\n$` ending matches exactly lines ending in CR LF or in CR LF LF, and yields what precedes it |
| Protocol.SplitLastSpace | peafowl/handler.py:17 | a line cut at its last space is the two parts around that space, the second without spaces |
| Protocol.DigitFieldIff | peafowl/handler.py:17 | a trailing ` [0-9]+` group is found exactly when the text is something, a space and a digit string |
| Protocol.ParseSetIff | peafowl/handler.py:17 | a line matches the SET pattern exactly when it is a set line with a valid key and three digit fields followed by the line end, and the groups are those fields |
| Protocol.ParseGetIff | peafowl/handler.py:12 | a line matches the GET pattern exactly when it is `get` and a 1-250 byte key without newline followed by the line end |
| Protocol.ClassifyIff | peafowl/handler.py:85-104 | each command kind is recognised exactly on lines of its own form, and no line matches two patterns |
| Protocol.ClassifyWellFormed | peafowl/handler.py:85-97 | every recognised SET or GET has a valid key and digit fields |
| Protocol.EncodeItem | peafowl/handler.py:118 | the packed item is big-endian flags, big-endian expiry, the length byte `min(len, 255)`, then the whole value |
| Protocol.DecodeItemRoundTrip | peafowl/handler.py:134 | the corrected decoder gives back flags, expiry and value for values of any length |
| Protocol.DecodeAsWrittenRoundTrip | peafowl/handler.py:134 | as written, decoding gives back the value cut to its first 255 bytes, and the whole item exactly when the value is at most 255 bytes |
| Protocol.DecodeAsWrittenAgrees | peafowl/handler.py:134-135 | as written and corrected, decoding accepts the same items and reads the same flags and expiry, so liveness is the same; as written the value is cut at the length byte |
| Protocol.DecodersAgreeOnShortValues | peafowl/handler.py:134 | on the packed item of a value of at most 255 bytes both decoders give the same item |
| Protocol.LongValueTruncated | tests/tests.py:31-35 | a 300-byte value, as the client test stores, decodes as written to 255 bytes |
| Protocol.ValueReplyFraming | peafowl/handler.py:13 | the value reply carries the value after its header, ends with the END line, and its header's fields parse back to the flags and the value's length |
| Protocol.GetReply | peafowl/handler.py:143-148 | a live item with a non-empty value is answered with the VALUE reply; no item or an empty value with `END` |
| Protocol.ScanFindsOldestLive | peafowl/handler.py:133-142 | the GET loop discards only decodable expired items and stops at the first empty, undecodable or live item, or at the end of the queue |
| Protocol.NeverExpires | peafowl/handler.py:135 | an item stored with expiry 0 is live at any time |
| Protocol.QueueStatBlockAsWritten | peafowl/handler.py:43-46 | as written, a queue's block starts with `STAT` and its last line ends in a bare CR |
| Protocol.QueueStatBlock | peafowl/handler.py:43-46 | the corrected block ends with CR LF |
| Protocol.QueueStatsText | peafowl/handler.py:173-182 | the corrected per-queue text is empty without queues and otherwise ends with CR LF |
| Protocol.QueueStatsTextSnoc | peafowl/handler.py:181 | one more queue appends its block to the text |
| Protocol.QueueStatsTextAppend | peafowl/handler.py:173-182 | the text of two runs of queues is one text followed by the other |
| Protocol.QueueStatsRunTogether | peafowl/handler.py:43-46 | as written, with two queues the first block's last CR is followed by the `S` of the next STAT line instead of LF |
| ProtocolHandler.Responded | peafowl/handler.py:106-110 | a reply is appended to what was sent and `bytes_written` grows by its length, nothing else changes |
| ProtocolHandler.ReadBodyConsumes | peafowl/handler.py:114-117 | the two reads consume `length + 2` bytes or all the input; the body is well framed exactly when the input holds `length` bytes then CR LF, and the value is those bytes |
| ProtocolHandler.SetStep | peafowl/handler.py:112-127 | a SET only appends to what was sent, counts what it sends, and counts `length + 2` bytes read |
| ProtocolHandler.SetConsumes | peafowl/handler.py:113-116 | a SET counts `length + 2` bytes read whatever arrived and consumes that much input or all of it |
| ProtocolHandler.ShortBodyRefused | peafowl/handler.py:112-127 | a SET whose body falls short of its declared length, however long that length, is within the model and answers the data chunk error without storing or raising |
| ProtocolHandler.SetRefuses | peafowl/handler.py:117-127 | a badly framed SET leaves the queues alone and answers the data chunk error; a framed SET whose flags or expiry cannot be packed raises before anything is stored or sent |
| ProtocolHandler.SetStores | peafowl/handler.py:117-124 | a framed, packable SET appends the packed item of the sent bytes to the name's queue and answers STORED, or answers NOT STORED and changes nothing when the name does not resolve |
| ProtocolHandler.CountExpired | peafowl/handler.py:137-140 | counting `n` expirations raises the name's entry by `n`, creating it, and leaves other names alone |
| ProtocolHandler.DrainExpiredScans | peafowl/handler.py:132-142 | the GET loop counts as expired exactly the items the scan passes and stops for the reason the scan gives |
| ProtocolHandler.DrainExpiredLeaves | peafowl/handler.py:132-142 | the GET loop removes the items the scan passes and the one it stops at, and leaves the rest of the queue |
| ProtocolHandler.DrainExpiredCountsTakes | peafowl/handler.py:132-142 | each take of the GET loop counts one hit or one miss |
| ProtocolHandler.GetStep | peafowl/handler.py:129-148 | a GET only appends to what was sent and counts what it sends |
| ProtocolHandler.GetDiscardsExpired | peafowl/handler.py:132-142 | a GET removes the expired items before the one it stops at, and that one; they are not put back, each raises the name's expired count by 1, and every take counts one hit or miss |
| ProtocolHandler.GetAnswersOldestLive | peafowl/handler.py:133-148 | a GET raises exactly when it meets an undecodable item, and then sends nothing; otherwise it answers with the oldest live item's VALUE reply when that item has a value, and `END` otherwise |
| ProtocolHandler.SetThenGet | peafowl/handler.py:112-148 | a SET with expiry 0 of a non-empty value on an empty queue, then a GET, answers STORED and then a VALUE reply with the flags and value sent |
| ProtocolHandler.DispatchStep | peafowl/handler.py:85-104 | a SET or GET line counts one request of its kind; a SET counts `length + 2` bytes read; an unrecognised line gets the command error and changes no queue |
| ProtocolHandler.ReceiveStep | peafowl/handler.py:69-74 | one turn of the read loop also counts the line's own bytes read |
| ProtocolHandler.Handler.constructor | peafowl/handler.py:54-60 | a new handler has nothing sent, no expiry counts, and the shared counters it is given |
| ProtocolHandler.Handler.Respond | peafowl/handler.py:106-110 | the session moves as `Responded` says and the queues are untouched |
| ProtocolHandler.Handler.Read | peafowl/handler.py:114-115 | a read returns up to `size` of the unread bytes and consumes them |
| ProtocolHandler.Handler.Set | peafowl/handler.py:112-127 | the session, the queues and the raise are exactly those of `SetStep` |
| ProtocolHandler.Handler.Store | peafowl/handler.py:119-124 | the packed item is put, and STORED or NOT STORED is answered as the name resolves |
| ProtocolHandler.Handler.CountExpiry | peafowl/handler.py:137-140 | the name's expired count grows by 1, created at 1 |
| ProtocolHandler.Handler.Discard | peafowl/handler.py:137-142 | an expired item is counted and the next one taken, as `Taken` says |
| ProtocolHandler.Handler.TakeLive | peafowl/handler.py:133-142 | the loop leaves the queues and the expiry counts as `DrainExpired` says, and returns the live item it stopped at or the raise |
| ProtocolHandler.Handler.Get | peafowl/handler.py:129-148 | the session, the queues and the raise are exactly those of `GetStep` |
| ProtocolHandler.Handler.Dispatch | peafowl/handler.py:85-104 | the session, the queues and the raise are exactly those of `DispatchStep` |
| ProtocolHandler.Handler.Process | peafowl/handler.py:85-104 | classification then dispatch, as `ProcessStep` says |
| ProtocolHandler.Handler.QueueStatOf | peafowl/handler.py:175-181 | a queue's figures are its name, size, total items and log size, and this connection's expired count for it, 0 when absent |
| ProtocolHandler.Handler.QueueStatsOf | peafowl/handler.py:175-181 | one set of figures per name, in the same order |
| ProtocolHandler.Handler.QueueStats | peafowl/handler.py:173-182 | the loop builds the corrected (CR LF) blocks of every registered queue in registry order; while draining the call raises |

## Left out

- The STATS reply (peafowl/handler.py:150-171): it reports the process id, wall clocks, `getrusage` floats and connection counts that are not part of this model, so a STATS line changes nothing in `DispatchStep`; only its per-queue part, `queue_stats`, is modelled.
- `Handler.run` (peafowl/handler.py:62-83): the socket read loop, timeouts and EMFILE handling are I/O. `ReceiveStep` models one turn given the line read; the number of connections is not modelled.
- Threads and locks: everything is sequential. The per-name creation lock and the shutdown lock are booleans; since the lock taken while a queue opens is released before anyone could observe it, only its release is recorded. The counters, shared between handlers, get no atomicity.
- `QueueCollection.close` (peafowl/collection.py:94-96): its loop unpacks each key as a pair and deletes from the dictionary it iterates over, so it would raise; the model takes the shutdown lock and closes no queue.
- `PersistentQueue.close` (peafowl/queue.py:64-67) never releases the transaction lock, so a second close would wait forever; the model only detaches the log and requires the log to be attached.
- The blocking `Queue.get` (peafowl/queue.py:55) and the non-blocking get during replay: a get on an empty FIFO is a precondition in `PersistentQueue.Get` and the `PopFromEmpty` outcome in replay.
- Python `struct` errors are preconditions or explicit outcomes: a size field shorter than four bytes during replay is `SizeFieldTruncated`, flags or expiry of 2^32 or more make `SetStep` raise before anything is stored, and values of 4 GiB or more are excluded from the queue operations. The size field is fixed to little-endian, the layout the native `"I"` format has on the hosts considered.
- ProtocolHandler.SetStep (and with it Handler.Set, DispatchStep, ProcessStep, ReceiveStep, Handler.Dispatch and Handler.Process) requires `9 + length < 2^32` only of a SET that reaches `put`, one whose body arrives framed and whose flags and expiry can be packed (`SetFits`, `BodyFits`); a SET of any declared length whose body falls short is modelled (`ShortBodyRefused`). For a SET that reaches `put` with a longer body the source's `put` looks the name up (possibly creating its queue), adds the length to `current_bytes` and one to `total_items`, and only then does `pack("I")` in the queue raise (peafowl/collection.py:22-27, peafowl/queue.py:44); that leaves `current_bytes` above the resident bytes, which this model does not represent.
- ProtocolHandler.SetRefuses: its client-error clause covers every declared length; its raise clause covers the packing failure of flags or expiry only, since a framed, packable body of 2^32 - 9 bytes or more is excluded by `SetFits`, as for SetStep above.
- The socket's buffered file object (`socket.makefile`, peafowl/handler.py:60) is not part of this model: `read(n)` is taken to return what has arrived, up to n bytes, for every n. If that library passes the size on to `recv` as a C `int`, a declared length of 2^31 or more raises in the read at peafowl/handler.py:114 instead, before anything is counted; that outcome is not modelled.
- The clock: `now` is an integer parameter and expiry is compared with it. The source compares the integer expiry with the float `time.time()` (peafowl/handler.py:130), and `expiry >= t` holds for an integer expiry exactly when `expiry >= ceil(t)`, so `now` stands for `ceil(time.time())`; `time.time()` floats and the timestamp in archived log file names are not modelled (an archived file is the next element of `archived`).
- The file system: the queue directory is a map from name to file contents given when the collection is built; logs that do not replay are excluded from that map, since opening one would raise. Every key the protocol accepts is assumed to name an openable file under the queue directory: keys such as `..`, a path through a missing directory or a key holding a NUL byte make `os.open` (peafowl/queue.py:78) raise out of `get_queues`, which is not modelled. Distinct keys are also assumed to name distinct files inside the directory: `DiskLog` gives every key its own log, each written by one queue object. In the source the path is `os.path.join` of the directory and the key (peafowl/queue.py:75, 78) and the registry holds one queue per distinct key (peafowl/collection.py:66), so keys such as `a` and `./a` open two queues on one file, each appending at the offset where its own replay stopped, and an absolute key such as `/tmp/x` names a file outside the directory; that aliasing is not modelled.
- Dictionary order: the order in which `queue_stats` and `_current_size` visit the queues is taken to be registration order.
- Exceptions raised by `set` and `get` are a `raised` flag: the counters already bumped stay bumped, and no reply is sent.
- `Queue.PersistentQueue.Put` models the code as written and is not used by the collection, which uses `DurablePut` (see Findings).
- `Protocol.DecodeAsWritten` models `unpack` as written and is not used by the handler, which uses `DecodeItem` (see Findings).
- ProtocolHandler.GetAnswersOldestLive: states the reply of the corrected decoder. As written, a live value longer than 255 bytes is answered with `VALUE key flags 255` and its first 255 bytes; `DecodeAsWrittenAgrees` shows that both decoders accept the same items with the same flags and expiry (so which items are expired or undecodable is the same), and that the value read as written is cut at the item's own length byte b[8]. For items packed by SET, torn trailing writes included, only values over 255 bytes differ (`DecodersAgreeOnShortValues`); an item recovered from a log file not written by SET can carry a length byte shorter than its data, which as written is read as that shorter value, possibly empty and so answered with `END`.
- ProtocolHandler.SetThenGet: the round trip holds as written only for values of at most 255 bytes (`DecodersAgreeOnShortValues`); longer values come back cut to 255 bytes (`LongValueTruncated`).
- ProtocolHandler.DrainExpired, ProtocolHandler.GetStep and ProtocolHandler.Handler.TakeLive decode with the corrected `DecodeItem`, for the same reason.
- ProtocolHandler.Handler.QueueStats: returns the corrected text, each block ending in CR LF (`QueueStatsText`); as written each block's last line ends in a bare CR (`QueueStatBlockAsWritten`), so the blocks run together (`QueueStatsRunTogether`).
- Collection.QueueCollection.Close: requires the collection not to be draining yet, since the source's second `shutdown_lock.acquire()` (peafowl/collection.py:93) would wait forever.

## Findings

| source | as written | input that shows it | evidently intended | confidence | as-written member | corrected member |
|---|---|---|---|---|---|---|
| peafowl/queue.py:45-47 | `put` appends the PUSH record and runs the rotation test before the value enters the FIFO, so when the FIFO is empty and the log is past 16 MiB it rotates and the fresh live log lacks the pushed item | a push on an empty queue whose log is just under 16 MiB: after a restart the queue is empty although it held the item | the pushed item survives a restart: the rotation test counts it, so a push never rotates | not executed | TransactionLog.PushRotationLosesItem | Queue.PersistentQueue.DurablePut |
| peafowl/handler.py:118, 134 | the Pascal string's length byte is capped at 255 and `unpack` returns only that many bytes | a 300-byte value, as `test_long_value` in tests/tests.py stores, comes back with 255 bytes | the whole value comes back, delimited by the record length | not executed | Protocol.LongValueTruncated | Protocol.DecodeItemRoundTrip |
| peafowl/handler.py:43-46, 181 | each queue's STAT block ends in a bare CR and blocks are concatenated directly | two registered queues: the first block's CR is directly followed by `STAT queue_…` of the second | every STAT line ends in CR LF | not executed | Protocol.QueueStatsRunTogether | Protocol.QueueStatsText |
