/** The connection handler (peafowl/handler.py): one client's session over
    a QueueCollection. The socket is modelled by `input`, the bytes the
    client has sent that are not read yet, and `sent`, everything written
    back; the server's shared `stats` dictionary by four counters. */
module ProtocolHandler {
  import opened Bytes
  import opened Queue
  import opened Collection
  import opened Protocol

  /** The counters of the server's `stats` dictionary a handler updates. */
  datatype Counters = Counters(bytesRead: nat, bytesWritten: nat, getRequests: nat, setRequests: nat)

  /** One session: unread input, everything sent, `expiry_stats`, counters. */
  datatype Session = Session(input: seq<byte>, sent: seq<byte>, expired: map<Name, nat>, stats: Counters)

  /** What handling a command leaves: the session, the registry, and whether
      an exception escaped (no reply is sent then). */
  datatype Step = Step(session: Session, registry: Registry, raised: bool)

  /** `_respond(message)`: the reply is sent and counted. */
  function Responded(s: Session, message: seq<byte>): (t: Session)
    ensures t.sent == s.sent + message
    ensures t.stats.bytesWritten == s.stats.bytesWritten + |message|
    ensures t.input == s.input && t.expired == s.expired
    ensures t.stats.bytesRead == s.stats.bytesRead
    ensures t.stats.getRequests == s.stats.getRequests && t.stats.setRequests == s.stats.setRequests
  {
    s.(sent := s.sent + message, stats := s.stats.(bytesWritten := s.stats.bytesWritten + |message|))
  }

  /** The counters across a step from `s` to `t`: what is sent only grows
      and `bytes_written` grows by exactly what is sent; `bytes_read` grows
      by `read`, and the GET and SET request counts by `gets` and `sets`. */
  predicate Accounted(s: Session, t: Session, read: nat, gets: nat, sets: nat)
  {
    |t.sent| >= |s.sent| && t.sent[..|s.sent|] == s.sent &&
    t.stats.bytesWritten - s.stats.bytesWritten == |t.sent| - |s.sent| &&
    t.stats.bytesRead == s.stats.bytesRead + read &&
    t.stats.getRequests == s.stats.getRequests + gets && t.stats.setRequests == s.stats.setRequests + sets
  }

  /** `pack` raises for flags or expiry of 2^32 or more. */
  predicate Packable(flags: nat, expiry: nat)
  {
    flags < U32Limit && expiry < U32Limit
  }

  /** A SET that reaches `put` on `input` (its body arrives framed and its
      flags and expiry can be packed) has a packed item that fits the queue
      log's four-byte length field. For a longer one, `put` raises only
      after the collection has counted the item, which leaves
      `current_bytes` above the resident bytes; such commands are outside
      this model. Any other SET, whatever length it declares, is modelled. */
  predicate SetFits(input: seq<byte>, flags: seq<byte>, expiry: seq<byte>, length: seq<byte>)
  {
    AllDigits(flags) && AllDigits(expiry) && AllDigits(length) &&
    var n := ParseNat(length);
    (Framed(ReadBody(input, n), n) && Packable(ParseNat(flags), ParseNat(expiry)) ==> 9 + n < U32Limit)
  }

  /** `SetFits` for a command read before `input`. */
  predicate BodyFits(c: Command, input: seq<byte>)
  {
    c.SetCommand? ==> SetFits(input, c.flags, c.expiry, c.length)
  }

  /** `read(length)` then `read(2)` on the unread input: each read returns
      what is available, up to the size asked for, whatever the size. */
  datatype BodyRead = BodyRead(data: seq<byte>, dataEnd: seq<byte>, rest: seq<byte>)

  function ReadBody(input: seq<byte>, length: nat): BodyRead
  {
    var data := input[..Min(length, |input|)];
    var after := input[|data|..];
    var dataEnd := after[..Min(2, |after|)];
    BodyRead(data, dataEnd, after[|dataEnd|..])
  }

  /** The framing check of `set`. */
  predicate Framed(b: BodyRead, length: nat)
  {
    b.dataEnd == CRLF && |b.data| == length
  }

  /** The two reads consume `length + 2` bytes, or all the input if there is
      less; the body is well framed exactly when the input holds `length`
      bytes followed by CR LF, and the value read is then those bytes. */
  lemma ReadBodyConsumes(input: seq<byte>, length: nat)
    ensures input == ReadBody(input, length).data + ReadBody(input, length).dataEnd + ReadBody(input, length).rest
    ensures ReadBody(input, length).rest == input[Min(length + 2, |input|)..]
    ensures Framed(ReadBody(input, length), length)
            <==> length + 2 <= |input| && input[length..length + 2] == CRLF
    ensures Framed(ReadBody(input, length), length) ==> ReadBody(input, length).data == input[..length]
  {
    var b := ReadBody(input, length);
    var after := input[|b.data|..];
    assert after == b.dataEnd + b.rest;
    assert input == b.data + after;
    if length + 2 <= |input| {
      assert b.dataEnd == input[length..length + 2];
    }
  }

  /** `set(key, flags, expiry, length)`: read the body and its line end,
      count `length + 2` bytes read whatever arrived, and store the packed
      item if the body is well framed. */
  function SetStep(s: Session, r: Registry, disk: Disk, key: Name,
                   flags: seq<byte>, expiry: seq<byte>, length: seq<byte>): (st: Step)
    requires WellFormedSet(key, flags, expiry, length) && SetFits(s.input, flags, expiry, length)
    ensures Accounted(s, st.session, ParseNat(length) + 2, 0, 0)
  {
    var n := ParseNat(length);
    var b := ReadBody(s.input, n);
    var t := s.(input := b.rest, stats := s.stats.(bytesRead := s.stats.bytesRead + n + 2));
    if !Framed(b, n) then Step(Responded(t, DataChunkErrorReply), r, false)
    else if !Packable(ParseNat(flags), ParseNat(expiry)) then Step(t, r, true)
    else
      var it := Item(ParseNat(flags), ParseNat(expiry), b.data);
      Step(Responded(t, if Resolves(r, key) then StoredReply else NotStoredReply),
           Stored(r, disk, key, EncodeItem(it)), false)
  }

  /** A SET consumes the declared length plus two bytes of input, or all
      of it if less arrived, and counts `length + 2` bytes read either way. */
  lemma SetConsumes(s: Session, r: Registry, disk: Disk, key: Name,
                    flags: seq<byte>, expiry: seq<byte>, length: seq<byte>)
    requires WellFormedSet(key, flags, expiry, length) && SetFits(s.input, flags, expiry, length)
    ensures var n := ParseNat(length); var st := SetStep(s, r, disk, key, flags, expiry, length);
            st.session.stats.bytesRead == s.stats.bytesRead + n + 2 &&
            st.session.input == s.input[Min(n + 2, |s.input|)..]
  {
    ReadBodyConsumes(s.input, ParseNat(length));
  }

  /** A SET whose body is not `length` bytes followed by CR LF leaves the
      registry alone and answers with the client error; one whose item
      cannot be packed raises before anything is stored or sent. */
  lemma SetRefuses(s: Session, r: Registry, disk: Disk, key: Name,
                   flags: seq<byte>, expiry: seq<byte>, length: seq<byte>)
    requires WellFormedSet(key, flags, expiry, length) && SetFits(s.input, flags, expiry, length)
    ensures var n := ParseNat(length); var st := SetStep(s, r, disk, key, flags, expiry, length);
            !(n + 2 <= |s.input| && s.input[n..n + 2] == CRLF) ==>
              st.registry == r && st.session.sent == s.sent + DataChunkErrorReply && !st.raised
    ensures var n := ParseNat(length); var st := SetStep(s, r, disk, key, flags, expiry, length);
            n + 2 <= |s.input| && s.input[n..n + 2] == CRLF && !Packable(ParseNat(flags), ParseNat(expiry)) ==>
              st.registry == r && st.session.sent == s.sent && st.raised
  {
    ReadBodyConsumes(s.input, ParseNat(length));
  }

  /** A SET of any declared length, even one too long to pack, whose body
      falls short of that length is answered with the client error, stores
      nothing and does not raise. */
  lemma ShortBodyRefused(s: Session, r: Registry, disk: Disk, key: Name,
                         flags: seq<byte>, expiry: seq<byte>, length: seq<byte>)
    requires WellFormedSet(key, flags, expiry, length) && |s.input| < ParseNat(length)
    ensures SetFits(s.input, flags, expiry, length)
    ensures var st := SetStep(s, r, disk, key, flags, expiry, length);
            st.registry == r && st.session.sent == s.sent + DataChunkErrorReply && !st.raised
  {
  }

  /** A well-framed SET of a packable item stores the packed item, made of
      the flags, expiry and the `length` bytes sent, at the end of the
      name's reachable items and answers STORED; on a name that does not
      resolve it answers NOT_STORED and changes nothing. */
  lemma SetStores(s: Session, r: Registry, disk: Disk, key: Name,
                  flags: seq<byte>, expiry: seq<byte>, length: seq<byte>)
    requires WellFormedSet(key, flags, expiry, length) && SetFits(s.input, flags, expiry, length)
    requires var n := ParseNat(length);
             n + 2 <= |s.input| && s.input[n..n + 2] == CRLF && Packable(ParseNat(flags), ParseNat(expiry))
    ensures var n := ParseNat(length); var st := SetStep(s, r, disk, key, flags, expiry, length);
            !st.raised &&
            (Resolves(r, key) ==>
               st.session.sent == s.sent + StoredReply &&
               Visible(st.registry, disk, key)
                 == Visible(r, disk, key) + [EncodeItem(Item(ParseNat(flags), ParseNat(expiry), s.input[..n]))]) &&
            (!Resolves(r, key) ==> st.session.sent == s.sent + NotStoredReply && st.registry == r)
  {
    var n := ParseNat(length);
    ReadBodyConsumes(s.input, n);
    if Resolves(r, key) {
      PutThenTake(r, disk, key, EncodeItem(Item(ParseNat(flags), ParseNat(expiry), s.input[..n])));
    }
  }

  /** `expiry_stats[key] += 1`, `n` times (the entry is created on the first). */
  function CountExpired(m: map<Name, nat>, key: Name, n: nat): (m': map<Name, nat>)
    ensures n > 0 ==> key in m' && m'[key] == (if key in m then m[key] else 0) + n
    ensures forall k | k != key :: (k in m' <==> k in m) && (k in m ==> m'[k] == m[k])
    ensures n == 0 ==> m' == m
  {
    if n == 0 then m else m[key := (if key in m then m[key] else 0) + n]
  }

  lemma CountExpiredAfterOne(m: map<Name, nat>, key: Name, n: nat)
    ensures CountExpired(CountExpired(m, key, 1), key, n) == CountExpired(m, key, n + 1)
  {
  }

  /** What the GET loop leaves: the registry, the expired counts, and how
      it stopped. */
  datatype Drained = Drained(registry: Registry, expired: map<Name, nat>, outcome: GetOutcome)

  /** The GET loop from a taken `response` on: it stops at no item, an empty
      item, one that does not unpack or a live one; an expired item is
      counted and the next one is taken. */
  function DrainExpired(r: Registry, disk: Disk, key: Name, now: int,
                        response: Option<seq<byte>>, expired: map<Name, nat>): Drained
    decreases |Visible(r, disk, key)| + (if response.Some? then 1 else 0)
  {
    if response.None? || response.value == [] then Drained(r, expired, NoItem)
    else match DecodeItem(response.value)
      case None => Drained(r, expired, Undecodable)
      case Some(it) =>
        if Live(it, now) then Drained(r, expired, Found(it))
        else
          TakeReturnsOldest(r, disk, key);
          var next := Taken(r, disk, key);
          DrainExpired(next.0, disk, key, now, next.1, CountExpired(expired, key, 1))
  }

  /** The loop agrees with the scan of the items it meets: started on
      `head` with `r` holding the rest, it counts the expired items the scan
      passes and stops for the reason the scan gives. */
  lemma {:induction false} DrainExpiredScans(r: Registry, disk: Disk, key: Name, now: int,
                                             head: seq<byte>, m: map<Name, nat>)
    ensures var sc := ScanItems([head] + Visible(r, disk, key), now);
            var d := DrainExpired(r, disk, key, now, Some(head), m);
            d.expired == CountExpired(m, key, sc.expired) && d.outcome == sc.outcome
    decreases |Visible(r, disk, key)|
  {
    var items := [head] + Visible(r, disk, key);
    assert items[0] == head && items[1..] == Visible(r, disk, key);
    if head != [] && DecodeItem(head).Some? && !Live(DecodeItem(head).value, now) {
      TakeReturnsOldest(r, disk, key);
      var next := Taken(r, disk, key);
      if next.1.Some? {
        DrainExpiredScans(next.0, disk, key, now, next.1.value, CountExpired(m, key, 1));
        assert [next.1.value] + Visible(next.0, disk, key) == items[1..];
        CountExpiredAfterOne(m, key, ScanItems(items[1..], now).expired);
      }
    }
  }

  /** The loop removes the items the scan passes and the one it stops at,
      and leaves the rest. */
  lemma {:induction false} DrainExpiredLeaves(r: Registry, disk: Disk, key: Name, now: int,
                                              head: seq<byte>, m: map<Name, nat>)
    ensures var items := [head] + Visible(r, disk, key); var sc := ScanItems(items, now);
            Visible(DrainExpired(r, disk, key, now, Some(head), m).registry, disk, key)
              == if sc.expired < |items| then items[sc.expired + 1..] else []
    decreases |Visible(r, disk, key)|
  {
    var items := [head] + Visible(r, disk, key);
    assert items[0] == head && items[1..] == Visible(r, disk, key);
    if head != [] && DecodeItem(head).Some? && !Live(DecodeItem(head).value, now) {
      TakeReturnsOldest(r, disk, key);
      var next := Taken(r, disk, key);
      if next.1.Some? {
        DrainExpiredLeaves(next.0, disk, key, now, next.1.value, CountExpired(m, key, 1));
        assert [next.1.value] + Visible(next.0, disk, key) == items[1..];
      }
    }
  }

  /** Each take of the loop counts one hit or one miss. */
  lemma {:induction false} DrainExpiredCountsTakes(r: Registry, disk: Disk, key: Name, now: int,
                                                   head: seq<byte>, m: map<Name, nat>)
    ensures var d := DrainExpired(r, disk, key, now, Some(head), m);
            d.registry.getHits + d.registry.getMisses
              == r.getHits + r.getMisses + ScanItems([head] + Visible(r, disk, key), now).expired
    decreases |Visible(r, disk, key)|
  {
    var items := [head] + Visible(r, disk, key);
    assert items[0] == head && items[1..] == Visible(r, disk, key);
    if head != [] && DecodeItem(head).Some? && !Live(DecodeItem(head).value, now) {
      TakeReturnsOldest(r, disk, key);
      var next := Taken(r, disk, key);
      if next.1.Some? {
        DrainExpiredCountsTakes(next.0, disk, key, now, next.1.value, CountExpired(m, key, 1));
        assert [next.1.value] + Visible(next.0, disk, key) == items[1..];
      }
    }
  }

  /** `get(key)` at time `now`: take, run the loop, and answer with the live
      item's value unless an item did not unpack. */
  function GetStep(s: Session, r: Registry, disk: Disk, key: Name, now: int): (st: Step)
    ensures Accounted(s, st.session, 0, 0, 0)
  {
    var first := Taken(r, disk, key);
    var d := DrainExpired(first.0, disk, key, now, first.1, s.expired);
    var t := s.(expired := d.expired);
    if d.outcome.Undecodable? then Step(t, d.registry, true)
    else Step(Responded(t, GetReply(key, if d.outcome.Found? then Some(d.outcome.item) else None)), d.registry, false)
  }

  /** A GET removes the expired items before the one it stops at, and that
      one, from the queue: they are not put back, each raises the name's
      expired count by one, and every take counts one hit or miss. */
  lemma GetDiscardsExpired(s: Session, r: Registry, disk: Disk, key: Name, now: int)
    ensures var items := Visible(r, disk, key); var sc := ScanItems(items, now);
            var st := GetStep(s, r, disk, key, now);
            sc.expired <= |items| &&
            Visible(st.registry, disk, key) == (if sc.expired < |items| then items[sc.expired + 1..] else []) &&
            (forall i | 0 <= i < sc.expired ::
               DecodeItem(items[i]).Some? && !Live(DecodeItem(items[i]).value, now)) &&
            st.session.expired == CountExpired(s.expired, key, sc.expired) &&
            st.registry.getHits + st.registry.getMisses == r.getHits + r.getMisses + sc.expired + 1
  {
    var items := Visible(r, disk, key);
    ScanFindsOldestLive(items, now);
    TakeReturnsOldest(r, disk, key);
    if items != [] {
      DrainExpiredScans(Taken(r, disk, key).0, disk, key, now, items[0], s.expired);
      DrainExpiredLeaves(Taken(r, disk, key).0, disk, key, now, items[0], s.expired);
      DrainExpiredCountsTakes(Taken(r, disk, key).0, disk, key, now, items[0], s.expired);
      assert [items[0]] + items[1..] == items;
    }
  }

  /** A GET answers with the oldest reachable item that is live, when that
      item has a value, and with the empty reply otherwise; an item that
      does not unpack raises and nothing is sent. */
  lemma GetAnswersOldestLive(s: Session, r: Registry, disk: Disk, key: Name, now: int)
    ensures var sc := ScanItems(Visible(r, disk, key), now); var st := GetStep(s, r, disk, key, now);
            (st.raised <==> sc.outcome.Undecodable?) && (st.raised ==> st.session.sent == s.sent)
    ensures var items := Visible(r, disk, key); var sc := ScanItems(items, now);
            var st := GetStep(s, r, disk, key, now);
            sc.outcome.Found? && sc.outcome.item.data != [] ==>
              sc.expired < |items| && DecodeItem(items[sc.expired]) == Some(sc.outcome.item) && Live(sc.outcome.item, now) &&
              st.session.sent == s.sent + ValueReply(key, sc.outcome.item)
    ensures var items := Visible(r, disk, key); var sc := ScanItems(items, now);
            var st := GetStep(s, r, disk, key, now);
            sc.outcome.NoItem? || (sc.outcome.Found? && sc.outcome.item.data == []) ==>
              st.session.sent == s.sent + EmptyGetReply
  {
    var items := Visible(r, disk, key);
    ScanFindsOldestLive(items, now);
    TakeReturnsOldest(r, disk, key);
    if items != [] {
      DrainExpiredScans(Taken(r, disk, key).0, disk, key, now, items[0], s.expired);
      assert [items[0]] + items[1..] == items;
    }
  }

  /** A SET of a non-empty value with expiry 0 on a name whose queue is
      empty, followed by a GET of that name, answers STORED and then a
      VALUE reply carrying the flags and value sent. */
  lemma SetThenGet(s: Session, r: Registry, disk: Disk, key: Name,
                   flags: seq<byte>, length: seq<byte>, now: int)
    requires WellFormedSet(key, flags, [48], length) && SetFits(s.input, flags, [48], length)
    requires Resolves(r, key) && Visible(r, disk, key) == []
    requires var n := ParseNat(length);
             0 < n && n + 2 <= |s.input| && s.input[n..n + 2] == CRLF && Packable(ParseNat(flags), 0)
    ensures var st := SetStep(s, r, disk, key, flags, [48], length);
            var gt := GetStep(st.session, st.registry, disk, key, now);
            !st.raised && !gt.raised &&
            gt.session.sent == s.sent + StoredReply
                               + ValueReply(key, Item(ParseNat(flags), 0, s.input[..ParseNat(length)]))
  {
    var n := ParseNat(length);
    assert ParseNat([48]) == 0 by { assert [48][..0] == []; }
    SetStores(s, r, disk, key, flags, [48], length);
    var st := SetStep(s, r, disk, key, flags, [48], length);
    var it := Item(ParseNat(flags), 0, s.input[..n]);
    assert Visible(st.registry, disk, key) == [EncodeItem(it)];
    NeverExpires(it, [], now);
    assert [EncodeItem(it)] + [] == [EncodeItem(it)];
    GetAnswersOldestLive(st.session, st.registry, disk, key, now);
  }

  /** The collection name a command addresses, if any. */
  function CommandKey(c: Command): Name
  {
    match c
    case SetCommand(key, _, _, _) => key
    case GetCommand(key) => key
    case _ => []
  }

  /** The dispatch of `_process` on a classified line: a SET or GET is
      counted first. The STATS reply is not part of this model, so a STATS
      line changes nothing here. */
  function DispatchStep(s: Session, r: Registry, disk: Disk, c: Command, now: int): (st: Step)
    requires WellFormedCommand(c) && BodyFits(c, s.input)
    ensures Accounted(s, st.session, if c.SetCommand? then ParseNat(c.length) + 2 else 0,
                      if c.GetCommand? then 1 else 0, if c.SetCommand? then 1 else 0)
    ensures c == UnknownCommand ==> st.session.sent == s.sent + UnknownCommandReply && st.registry == r
  {
    match c
    case SetCommand(key, flags, expiry, length) =>
      SetStep(s.(stats := s.stats.(setRequests := s.stats.setRequests + 1)), r, disk, key, flags, expiry, length)
    case GetCommand(key) =>
      GetStep(s.(stats := s.stats.(getRequests := s.stats.getRequests + 1)), r, disk, key, now)
    case StatsCommand => Step(s, r, false)
    case UnknownCommand => Step(Responded(s, UnknownCommandReply), r, false)
  }

  /** `_process(line)`: classify the line, then dispatch. */
  function ProcessStep(s: Session, r: Registry, disk: Disk, line: seq<byte>, now: int): Step
    requires BodyFits(Classify(line), s.input)
  {
    ClassifyWellFormed(line);
    DispatchStep(s, r, disk, Classify(line), now)
  }

  /** One turn of the `run` loop: count the line read, then process it.
      Besides the line, `bytes_read` counts a SET's declared body length
      plus two; each SET or GET line counts one request of its kind; an
      unrecognised line gets the error reply and changes no queue. */
  function ReceiveStep(s: Session, r: Registry, disk: Disk, line: seq<byte>, now: int): (st: Step)
    requires BodyFits(Classify(line), s.input)
    ensures var c := Classify(line);
            Accounted(s, st.session, |line| + (if c.SetCommand? then ParseNat(c.length) + 2 else 0),
                      if c.GetCommand? then 1 else 0, if c.SetCommand? then 1 else 0)
    ensures Classify(line) == UnknownCommand ==> st.session.sent == s.sent + UnknownCommandReply && st.registry == r
  {
    ProcessStep(s.(stats := s.stats.(bytesRead := s.stats.bytesRead + |line|)), r, disk, line, now)
  }

  class Handler {
    const collection: QueueCollection
    /** What the client has sent that is not read yet (`self.file`). */
    var input: seq<byte>
    /** Everything sent to the client (`self.socket`). */
    var sent: seq<byte>
    var expiryStats: map<Name, nat>
    /** The counters of the shared `stats` dictionary. */
    var stats: Counters

    function Abs(): Session
      reads this
    {
      Session(input, sent, expiryStats, stats)
    }

    ghost predicate Valid()
      reads this, collection, collection.queues.Values
    {
      collection.Valid()
    }

    constructor (collection: QueueCollection, input: seq<byte>, stats: Counters)
      ensures this.collection == collection
      ensures Abs() == Session(input, [], map[], stats)
    {
      this.collection := collection;
      this.input := input;
      sent := [];
      expiryStats := map[];
      this.stats := stats;
    }

    /** `_respond(message)`. */
    method Respond(message: seq<byte>)
      requires Valid()
      modifies this
      ensures Valid() && Abs() == Responded(old(Abs()), message)
      ensures collection.Abs() == old(collection.Abs())
    {
      stats := stats.(bytesWritten := stats.bytesWritten + |message|);
      sent := sent + message;
    }

    /** `self.file.read(size)`: up to `size` of the bytes not read yet. */
    method Read(size: nat) returns (chunk: seq<byte>)
      requires Valid()
      modifies this
      ensures Valid()
      ensures chunk == old(input)[..Min(size, |old(input)|)]
      ensures Abs() == old(Abs()).(input := old(input)[|chunk|..])
      ensures collection.Abs() == old(collection.Abs())
    {
      chunk := input[..Min(size, |input|)];
      input := input[|chunk|..];
    }

    /** `set(key, flags, expiry, length)`; true when `pack` raised. */
    method Set(key: Name, flags: seq<byte>, expiry: seq<byte>, length: seq<byte>) returns (raised: bool)
      requires Valid() && WellFormedSet(key, flags, expiry, length) && SetFits(input, flags, expiry, length)
      modifies this, collection, collection.QueueFrame(key)
      ensures Valid()
      ensures Step(Abs(), collection.Abs(), raised)
              == SetStep(old(Abs()), old(collection.Abs()), collection.disk, key, flags, expiry, length)
    {
      ghost var expected := SetStep(Abs(), collection.Abs(), collection.disk, key, flags, expiry, length);
      ghost var r0 := collection.Abs();
      var n := ParseNat(length);
      ghost var body := ReadBody(input, n);
      var data := Read(n);
      var dataEnd := Read(2);
      assert body == BodyRead(data, dataEnd, input);
      stats := stats.(bytesRead := stats.bytesRead + n + 2);
      if dataEnd == CRLF && |data| == n {
        var f := ParseNat(flags);
        var e := ParseNat(expiry);
        if f >= U32Limit || e >= U32Limit {
          return true;
        }
        var it := Item(f, e, data);
        assert expected.registry == Stored(r0, collection.disk, key, EncodeItem(it));
        assert expected.session == Responded(Abs(), if Resolves(r0, key) then StoredReply else NotStoredReply);
        Store(key, it);
        assert Abs() == expected.session;
        assert collection.Abs() == expected.registry;
      } else {
        Respond(DataChunkErrorReply);
      }
      return false;
    }

    /** The storing branch of `set`: put the packed item and answer whether
        the collection took it. */
    method Store(key: Name, it: Item)
      requires Valid() && ValidKey(key) && 9 + |it.data| < U32Limit
      modifies this, collection, collection.QueueFrame(key)
      ensures Valid()
      ensures collection.Abs() == Stored(old(collection.Abs()), collection.disk, key, EncodeItem(it))
      ensures Abs() == Responded(old(Abs()), if Resolves(old(collection.Abs()), key) then StoredReply else NotStoredReply)
    {
      assert this !in collection.QueueFrame(key);
      var ok := collection.Put(key, EncodeItem(it));
      if ok {
        Respond(StoredReply);
      } else {
        Respond(NotStoredReply);
      }
    }

    /** `expiry_stats[key] += 1`, creating the entry at 1. */
    method CountExpiry(key: Name)
      requires Valid()
      modifies this
      ensures Valid()
      ensures Abs() == old(Abs()).(expired := CountExpired(old(expiryStats), key, 1))
      ensures collection.Abs() == old(collection.Abs())
    {
      if key in expiryStats {
        expiryStats := expiryStats[key := expiryStats[key] + 1];
      } else {
        expiryStats := expiryStats[key := 1];
      }
    }

    /** An expired item was taken: count it and take the next one. */
    method Discard(key: Name) returns (response: Option<seq<byte>>)
      requires Valid() && ValidKey(key)
      modifies this, collection, collection.QueueFrame(key)
      ensures Valid()
      ensures (collection.Abs(), response) == Taken(old(collection.Abs()), collection.disk, key)
      ensures Abs() == old(Abs()).(expired := CountExpired(old(expiryStats), key, 1))
      ensures key in collection.queues ==>
                collection.queues[key] in old(collection.QueueFrame(key)) || fresh(collection.queues[key])
    {
      CountExpiry(key);
      assert this !in collection.QueueFrame(key);
      response := collection.Take(key);
    }

    /** The loop of `get(key)`, from the first item taken: `raised` when an
        item does not unpack. */
    method TakeLive(key: Name, now: int, first: Option<seq<byte>>) returns (found: Option<Item>, raised: bool)
      requires Valid() && ValidKey(key)
      modifies this, collection, collection.QueueFrame(key)
      ensures Valid()
      ensures var d := DrainExpired(old(collection.Abs()), collection.disk, key, now, first, old(expiryStats));
              collection.Abs() == d.registry && Abs() == old(Abs()).(expired := d.expired) &&
              raised == d.outcome.Undecodable? && found == (if d.outcome.Found? then Some(d.outcome.item) else None)
    {
      ghost var target := DrainExpired(collection.Abs(), collection.disk, key, now, first, expiryStats);
      var response := first;
      found, raised := None, false;
      while response.Some? && response.value != []
        invariant Valid()
        invariant DrainExpired(collection.Abs(), collection.disk, key, now, response, expiryStats) == target
        invariant Abs() == old(Abs()).(expired := expiryStats)
        invariant key in collection.queues ==>
                    collection.queues[key] in old(collection.QueueFrame(key)) || fresh(collection.queues[key])
        decreases |Visible(collection.Abs(), collection.disk, key)| + (if response.Some? then 1 else 0)
      {
        var decoded := DecodeItem(response.value);
        if decoded.None? {
          raised := true;
          return;
        }
        if Live(decoded.value, now) {
          found := decoded;
          return;
        }
        TakeReturnsOldest(collection.Abs(), collection.disk, key);
        response := Discard(key);
      }
    }

    /** `get(key)` at time `now`; true when `unpack` raised. */
    method Get(key: Name, now: int) returns (raised: bool)
      requires Valid() && ValidKey(key)
      modifies this, collection, collection.QueueFrame(key)
      ensures Valid()
      ensures Step(Abs(), collection.Abs(), raised)
              == GetStep(old(Abs()), old(collection.Abs()), collection.disk, key, now)
    {
      assert this !in collection.QueueFrame(key);
      var response := collection.Take(key);
      var found;
      found, raised := TakeLive(key, now, response);
      if !raised {
        Respond(GetReply(key, found));
      }
    }

    /** The dispatch of `_process`: true when the command raised. */
    method Dispatch(command: Command, now: int) returns (raised: bool)
      requires Valid() && WellFormedCommand(command) && BodyFits(command, input)
      modifies this, collection, collection.QueueFrame(CommandKey(command))
      ensures Valid()
      ensures Step(Abs(), collection.Abs(), raised)
              == DispatchStep(old(Abs()), old(collection.Abs()), collection.disk, command, now)
    {
      ghost var r0 := collection.Abs();
      ghost var expected := DispatchStep(Abs(), r0, collection.disk, command, now);
      match command
      case SetCommand(key, flags, expiry, length) =>
        stats := stats.(setRequests := stats.setRequests + 1);
        assert expected == SetStep(Abs(), r0, collection.disk, key, flags, expiry, length);
        raised := Set(key, flags, expiry, length);
      case GetCommand(key) =>
        stats := stats.(getRequests := stats.getRequests + 1);
        assert expected == GetStep(Abs(), r0, collection.disk, key, now);
        raised := Get(key, now);
      case StatsCommand =>
        raised := false;
      case UnknownCommand =>
        Respond(UnknownCommandReply);
        raised := false;
    }

    /** `_process(line)`: true when the command raised. */
    method Process(line: seq<byte>, now: int) returns (raised: bool)
      requires Valid() && BodyFits(Classify(line), input)
      modifies this, collection, collection.QueueFrame(CommandKey(Classify(line)))
      ensures Valid()
      ensures Step(Abs(), collection.Abs(), raised)
              == ProcessStep(old(Abs()), old(collection.Abs()), collection.disk, line, now)
    {
      var command := Classify(line);
      ClassifyWellFormed(line);
      raised := Dispatch(command, now);
    }

    /** The figures `queue_stats` reports for one registered name: its
        queue's size and counters, and the expired items this connection
        has discarded from it. */
    function QueueStatOf(name: Name): (q: QueueStat)
      reads this, collection, collection.queues.Values
      requires name in collection.queues
      ensures q.name == name && q.size == |collection.queues[name].items|
      ensures q.totalItems == collection.queues[name].totalItems && q.logSize == collection.queues[name].logSize
      ensures q.expired == if name in expiryStats then expiryStats[name] else 0
    {
      var queue := collection.queues[name];
      QueueStat(name, queue.QSize(), queue.totalItems, queue.logSize,
                if name in expiryStats then expiryStats[name] else 0)
    }

    /** The figures of `names`, one per name and in the same order. */
    function QueueStatsOf(names: seq<Name>): (qs: seq<QueueStat>)
      reads this, collection, collection.queues.Values
      requires forall i | 0 <= i < |names| :: names[i] in collection.queues
      ensures |qs| == |names| && forall i | 0 <= i < |names| :: qs[i] == QueueStatOf(names[i])
    {
      if names == [] then [] else QueueStatsOf(names[..|names| - 1]) + [QueueStatOf(names[|names| - 1])]
    }

    /** Every name in registry order has its queue object. */
    lemma NamesRegistered()
      requires Valid()
      ensures forall i | 0 <= i < |collection.names| :: collection.names[i] in collection.queues
    {
    }

    /** The text of one more name is the text so far and that name's block. */
    lemma StatsTextGrows(names: seq<Name>, i: nat)
      requires forall j | 0 <= j < |names| :: names[j] in collection.queues
      requires i < |names|
      ensures QueueStatsText(QueueStatsOf(names[..i + 1]))
              == QueueStatsText(QueueStatsOf(names[..i])) + QueueStatBlock(QueueStatOf(names[i]))
    {
      assert names[..i + 1][..i] == names[..i];
      QueueStatsTextSnoc(QueueStatsOf(names[..i]), QueueStatOf(names[i]));
    }

    /** `queue_stats()`: one block per registered queue, in registry order.
        While draining, `get_queues()` yields nothing to iterate over and
        the call raises. */
    method QueueStats() returns (text: Option<seq<byte>>)
      requires Valid()
      ensures collection.draining ==> text == None
      ensures !collection.draining ==> text == Some(QueueStatsText(QueueStatsOf(collection.names)))
    {
      if collection.draining {
        return None;
      }
      var names := collection.names;
      NamesRegistered();
      var response := [];
      var i := 0;
      while i < |names|
        invariant 0 <= i <= |names|
        invariant response == QueueStatsText(QueueStatsOf(names[..i]))
      {
        StatsTextGrows(names, i);
        response := response + QueueStatBlock(QueueStatOf(names[i]));
        i := i + 1;
      }
      assert names[..i] == names;
      return Some(response);
    }
  }
}
