/** The pure part of the protocol handler (peafowl/handler.py): matching a
    command line against the SET, GET and STATS patterns, the `"!II%sp"`
    item codec stored in the queues, the replies, what the GET loop does to
    the items it takes, and the per-queue STATS text. */
module Protocol {
  import opened Bytes

  // ---------------------------------------------------------------------
  // Command lines

  const SetPrefix: seq<byte> := Ascii("set ")
  const GetPrefix: seq<byte> := Ascii("get ")
  const StatsWord: seq<byte> := Ascii("stats")

  /** What precedes the `\r\n$` that ends every command pattern. Python's `$`
      matches at the end of the line or just before a final newline, so the
      line ends in CR LF or in CR LF LF. */
  function BeforeLineEnd(line: seq<byte>): Option<seq<byte>>
  {
    if |line| >= 2 && line[|line| - 2..] == CRLF then Some(line[..|line| - 2])
    else if |line| >= 3 && line[|line| - 3..] == [CR, LF, LF] then Some(line[..|line| - 3])
    else None
  }

  lemma BeforeLineEndIff(line: seq<byte>, b: seq<byte>)
    ensures BeforeLineEnd(line) == Some(b) <==> line == b + CRLF || line == b + [CR, LF, LF]
  {
    if BeforeLineEnd(line) == Some(b) {
      if |line| >= 2 && line[|line| - 2..] == CRLF {
        assert line == line[..|line| - 2] + line[|line| - 2..];
      } else {
        assert line == line[..|line| - 3] + line[|line| - 3..];
      }
    }
    if line == b + CRLF {
      assert line[|line| - 2..] == CRLF && line[..|line| - 2] == b;
    } else if line == b + [CR, LF, LF] {
      assert line[|line| - 2..] == [LF, LF];
      assert line[|line| - 3..] == [CR, LF, LF] && line[..|line| - 3] == b;
    }
  }

  /** `.{1,250}`: one to 250 bytes, none of them a newline. */
  predicate ValidKey(key: seq<byte>)
  {
    1 <= |key| <= 250 && forall i | 0 <= i < |key| :: key[i] != LF
  }

  /** `[0-9]+`. */
  predicate Digits(s: seq<byte>)
  {
    s != [] && AllDigits(s)
  }

  predicate NoSpace(s: seq<byte>)
  {
    forall i | 0 <= i < |s| :: s[i] != SP
  }

  /** `s` cut at its last space: what precedes it and what follows it. */
  function SplitLastSpace(s: seq<byte>): (r: Option<(seq<byte>, seq<byte>)>)
    ensures r.Some? ==> s == r.value.0 + [SP] + r.value.1 && NoSpace(r.value.1)
    ensures r.None? ==> NoSpace(s)
  {
    if s == [] then None
    else if s[|s| - 1] == SP then Some((s[..|s| - 1], []))
    else match SplitLastSpace(s[..|s| - 1])
      case None => None
      case Some((a, b)) => Some((a, b + [s[|s| - 1]]))
  }

  /** The cut is unique: a suffix without spaces after a space is found. */
  lemma {:induction false} SplitLastSpaceFinds(a: seq<byte>, b: seq<byte>)
    requires NoSpace(b)
    ensures SplitLastSpace(a + [SP] + b) == Some((a, b))
    decreases |b|
  {
    var s := a + [SP] + b;
    if b == [] {
      assert s[..|s| - 1] == a;
    } else {
      var b' := b[..|b| - 1];
      assert s[..|s| - 1] == a + [SP] + b';
      assert s[|s| - 1] == b[|b| - 1];
      SplitLastSpaceFinds(a, b');
      assert b' + [b[|b| - 1]] == b;
    }
  }

  /** A trailing ` [0-9]+` group and what precedes it. */
  function DigitField(s: seq<byte>): Option<(seq<byte>, seq<byte>)>
  {
    match SplitLastSpace(s)
    case None => None
    case Some((a, d)) => if Digits(d) then Some((a, d)) else None
  }

  lemma DigitFieldIff(s: seq<byte>, a: seq<byte>, d: seq<byte>)
    ensures DigitField(s) == Some((a, d)) <==> s == a + [SP] + d && Digits(d)
  {
    if s == a + [SP] + d && Digits(d) {
      assert NoSpace(d) by {
        forall i | 0 <= i < |d| ensures d[i] != SP {
          assert IsDigit(d[i]);
        }
      }
      SplitLastSpaceFinds(a, d);
    }
  }

  /** The command a line carries; the groups of the SET pattern are kept as
      the digit strings they match. */
  datatype Command =
    | SetCommand(key: seq<byte>, flags: seq<byte>, expiry: seq<byte>, length: seq<byte>)
    | GetCommand(key: seq<byte>)
    | StatsCommand
    | UnknownCommand

  function SetLine(key: seq<byte>, flags: seq<byte>, expiry: seq<byte>, length: seq<byte>): seq<byte>
  {
    SetPrefix + key + [SP] + flags + [SP] + expiry + [SP] + length
  }

  predicate WellFormedSet(key: seq<byte>, flags: seq<byte>, expiry: seq<byte>, length: seq<byte>)
  {
    ValidKey(key) && Digits(flags) && Digits(expiry) && Digits(length)
  }

  /** `re.match(SET_COMMAND, line)`. The three digit groups contain no space,
      so they are the last three space-separated fields and the key is all
      that precedes them, spaces included. */
  function ParseSet(line: seq<byte>): Option<Command>
  {
    match BeforeLineEnd(line)
    case None => None
    case Some(b) =>
      if |b| < 4 || b[..4] != SetPrefix then None
      else match DigitField(b[4..])
        case None => None
        case Some((r1, length)) =>
          match DigitField(r1)
          case None => None
          case Some((r2, expiry)) =>
            match DigitField(r2)
            case None => None
            case Some((key, flags)) =>
              if ValidKey(key) then Some(SetCommand(key, flags, expiry, length)) else None
  }

  /** A line matches the SET pattern exactly when it is a well-formed SET line
      followed by the line end, and the groups are the ones it was built
      from. */
  lemma ParseSetIff(line: seq<byte>, key: seq<byte>, flags: seq<byte>, expiry: seq<byte>, length: seq<byte>)
    ensures ParseSet(line) == Some(SetCommand(key, flags, expiry, length))
            <==> BeforeLineEnd(line) == Some(SetLine(key, flags, expiry, length))
                 && WellFormedSet(key, flags, expiry, length)
  {
    var r2 := key + [SP] + flags;
    var r1 := r2 + [SP] + expiry;
    var rest := r1 + [SP] + length;
    var b := SetPrefix + rest;
    assert SetLine(key, flags, expiry, length) == b;
    assert b[..4] == SetPrefix && b[4..] == rest;
    DigitFieldIff(rest, r1, length);
    DigitFieldIff(r1, r2, expiry);
    DigitFieldIff(r2, key, flags);
    if ParseSet(line) == Some(SetCommand(key, flags, expiry, length)) {
      var b' := BeforeLineEnd(line).value;
      assert b'[..4] == SetPrefix;
      var rest' := b'[4..];
      assert b' == SetPrefix + rest';
      DigitFieldIff(rest', DigitField(rest').value.0, length);
      var r1' := DigitField(rest').value.0;
      DigitFieldIff(r1', DigitField(r1').value.0, expiry);
      var r2' := DigitField(r1').value.0;
      DigitFieldIff(r2', key, flags);
    }
  }

  function GetLine(key: seq<byte>): seq<byte>
  {
    GetPrefix + key
  }

  /** `re.match(GET_COMMAND, line)`. */
  function ParseGet(line: seq<byte>): Option<Command>
  {
    match BeforeLineEnd(line)
    case None => None
    case Some(b) =>
      if |b| < 4 || b[..4] != GetPrefix || !ValidKey(b[4..]) then None
      else Some(GetCommand(b[4..]))
  }

  lemma ParseGetIff(line: seq<byte>, key: seq<byte>)
    ensures ParseGet(line) == Some(GetCommand(key))
            <==> BeforeLineEnd(line) == Some(GetLine(key)) && ValidKey(key)
  {
    var b := GetLine(key);
    assert b[..4] == GetPrefix && b[4..] == key;
    if ParseGet(line) == Some(GetCommand(key)) {
      var b' := BeforeLineEnd(line).value;
      assert b' == b'[..4] + b'[4..];
    }
  }

  /** `re.match(STATS_COMMAND, line)`. */
  predicate IsStatsLine(line: seq<byte>)
  {
    BeforeLineEnd(line) == Some(StatsWord)
  }

  /** `_process`: SET is tried first, then GET, then STATS. */
  function Classify(line: seq<byte>): Command
  {
    if ParseSet(line).Some? then ParseSet(line).value
    else if ParseGet(line).Some? then ParseGet(line).value
    else if IsStatsLine(line) then StatsCommand
    else UnknownCommand
  }

  /** The three patterns never match the same line, so the order in which
      they are tried does not matter, and each kind of command is recognised
      exactly on the lines of its own form. */
  lemma ClassifyIff(line: seq<byte>, key: seq<byte>, flags: seq<byte>, expiry: seq<byte>, length: seq<byte>)
    ensures Classify(line) == SetCommand(key, flags, expiry, length)
            <==> BeforeLineEnd(line) == Some(SetLine(key, flags, expiry, length))
                 && WellFormedSet(key, flags, expiry, length)
    ensures Classify(line) == GetCommand(key)
            <==> BeforeLineEnd(line) == Some(GetLine(key)) && ValidKey(key)
    ensures Classify(line) == StatsCommand <==> IsStatsLine(line)
    ensures ParseSet(line).None? || ParseGet(line).None?
    ensures ParseSet(line).None? || !IsStatsLine(line)
    ensures ParseGet(line).None? || !IsStatsLine(line)
  {
    ParseSetIff(line, key, flags, expiry, length);
    ParseGetIff(line, key);
    if ParseSet(line).Some? {
      var c := ParseSet(line).value;
      ParseSetIff(line, c.key, c.flags, c.expiry, c.length);
      var b := BeforeLineEnd(line).value;
      assert b[0] == 's' as int && b[1] == 'e' as int;
    }
    if ParseGet(line).Some? {
      var b := BeforeLineEnd(line).value;
      assert b[0] == 'g' as int;
    }
  }

  /** A command of a well-formed shape: a SET's fields are a key and three
      digit strings, a GET's field is a key. */
  predicate WellFormedCommand(c: Command)
  {
    match c
    case SetCommand(key, flags, expiry, length) => WellFormedSet(key, flags, expiry, length)
    case GetCommand(key) => ValidKey(key)
    case _ => true
  }

  /** Every command the classifier recognises is well formed. */
  lemma ClassifyWellFormed(line: seq<byte>)
    ensures WellFormedCommand(Classify(line))
  {
    match Classify(line)
    case SetCommand(key, flags, expiry, length) => ClassifyIff(line, key, flags, expiry, length);
    case GetCommand(key) => ClassifyIff(line, key, [], [], []);
    case _ =>
  }

  // ---------------------------------------------------------------------
  // The stored item: `pack("!II%dp" % (length + 1), flags, expiry, data)`

  datatype Item = Item(flags: u32, expiry: u32, data: seq<byte>)

  /** Flags and expiry in network order, then the Pascal string: one byte
      holding the length capped at 255, then the whole value (the field is
      one byte longer than the value, so nothing is cut or padded). */
  function EncodeItem(it: Item): (b: seq<byte>)
    ensures |b| == 9 + |it.data|
    ensures b[..4] == BE32(it.flags) && b[4..8] == BE32(it.expiry)
    ensures b[8] == Min(|it.data|, 255) && b[9..] == it.data
  {
    BE32(it.flags) + BE32(it.expiry) + [Min(|it.data|, 255)] + it.data
  }

  /** `unpack("!II%dp" % (len(b) - 8), b)` as written: the value read back
      is as long as the length byte says, within the field. Shorter than
      nine bytes, the format is invalid or the read length negative and
      the call raises. */
  function DecodeAsWritten(b: seq<byte>): Option<Item>
  {
    if |b| < 9 then None
    else Some(Item(FromBE32(b[..4]), FromBE32(b[4..8]), b[9..9 + Min(b[8], |b| - 9)]))
  }

  /** The value as the record length delimits it, ignoring the capped length
      byte. */
  function DecodeItem(b: seq<byte>): Option<Item>
  {
    if |b| < 9 then None
    else Some(Item(FromBE32(b[..4]), FromBE32(b[4..8]), b[9..]))
  }

  /** The corrected decoder inverts the encoder for values of every length. */
  lemma DecodeItemRoundTrip(it: Item)
    ensures DecodeItem(EncodeItem(it)) == Some(it)
  {
    BE32RoundTrip(it.flags);
    BE32RoundTrip(it.expiry);
  }

  /** As written, a value comes back whole only up to 255 bytes; a longer one
      comes back cut to its first 255 bytes. */
  lemma DecodeAsWrittenRoundTrip(it: Item)
    ensures DecodeAsWritten(EncodeItem(it)) == Some(it.(data := it.data[..Min(|it.data|, 255)]))
    ensures DecodeAsWritten(EncodeItem(it)) == Some(it) <==> |it.data| <= 255
  {
    var b := EncodeItem(it);
    BE32RoundTrip(it.flags);
    BE32RoundTrip(it.expiry);
    assert b[9..9 + Min(b[8], |b| - 9)] == it.data[..Min(|it.data|, 255)];
    if |it.data| > 255 {
      assert |it.data[..255]| != |it.data|;
    } else {
      assert it.data[..|it.data|] == it.data;
    }
  }

  /** The two decoders accept the same strings and read the same flags and
      expiry, so they agree on which items are live and undecodable; as
      written, the value read back is cut at the length byte. */
  lemma DecodeAsWrittenAgrees(b: seq<byte>)
    ensures DecodeAsWritten(b).Some? <==> DecodeItem(b).Some?
    ensures DecodeItem(b).Some? ==>
              DecodeAsWritten(b).value.flags == DecodeItem(b).value.flags &&
              DecodeAsWritten(b).value.expiry == DecodeItem(b).value.expiry &&
              DecodeAsWritten(b).value.data == DecodeItem(b).value.data[..Min(b[8], |b| - 9)]
  {
  }

  /** On the packed item of a value of at most 255 bytes, the two decoders
      give the same item. */
  lemma DecodersAgreeOnShortValues(it: Item)
    requires |it.data| <= 255
    ensures DecodeAsWritten(EncodeItem(it)) == DecodeItem(EncodeItem(it))
  {
    DecodeAsWrittenRoundTrip(it);
    DecodeItemRoundTrip(it);
  }

  /** A 300-byte value, as one of the repository's client tests stores,
      comes back with 255 bytes. */
  lemma LongValueTruncated(it: Item)
    requires |it.data| == 300
    ensures DecodeAsWritten(EncodeItem(it)).Some?
    ensures |DecodeAsWritten(EncodeItem(it)).value.data| == 255
  {
    DecodeAsWrittenRoundTrip(it);
  }

  // ---------------------------------------------------------------------
  // Replies

  const UnknownCommandReply: seq<byte> := Ascii("CLIENT_ERROR bad command line format\r\n")
  const StoredReply: seq<byte> := Ascii("STORED\r\n")
  const NotStoredReply: seq<byte> := Ascii("NOT STORED\r\n")
  const DataChunkErrorReply: seq<byte> := Ascii("CLIENT_ERROR bad data chunk\r\nERROR\r\n")
  const EmptyGetReply: seq<byte> := Ascii("END\r\n")
  const ValueWord: seq<byte> := Ascii("VALUE ")
  const ValueTrailer: seq<byte> := Ascii("\r\nEND\r\n")

  /** `GET_RESPONSE % (key, flags, len(data), data)`. */
  function ValueReply(key: seq<byte>, it: Item): seq<byte>
  {
    ValueHeader(key, it) + it.data + ValueTrailer
  }

  function ValueHeader(key: seq<byte>, it: Item): seq<byte>
  {
    ValueWord + key + [SP] + Decimal(it.flags) + [SP] + Decimal(|it.data|) + CRLF
  }

  /** A client can frame a value reply: the payload follows the header line,
      whose last field is the payload's length and whose second is the flags,
      and the reply ends with the END line. */
  lemma ValueReplyFraming(key: seq<byte>, it: Item)
    ensures var r := ValueReply(key, it); var h := |ValueHeader(key, it)|;
            r[h..h + |it.data|] == it.data && r[h + |it.data|..] == ValueTrailer
    ensures var h := ValueHeader(key, it); var n := Decimal(|it.data|);
            h[|h| - 2 - |n|..|h| - 2] == n && ParseNat(n) == |it.data|
    ensures var h := ValueHeader(key, it); var f := Decimal(it.flags);
            h[|ValueWord| + |key| + 1..|ValueWord| + |key| + 1 + |f|] == f && ParseNat(f) == it.flags
  {
    var r := ValueReply(key, it);
    var h := ValueHeader(key, it);
    assert r == h + it.data + ValueTrailer;
    assert r[|h|..|h| + |it.data|] == it.data;
    ParseDecimal(|it.data|);
    ParseDecimal(it.flags);
    var f := Decimal(it.flags);
    var n := Decimal(|it.data|);
    assert h == (ValueWord + key + [SP]) + f + ([SP] + n) + CRLF;
    assert h[|h| - 2 - |n|..|h| - 2] == n;
  }

  /** `if data:` — a live item with an empty value is answered like a miss. */
  function GetReply(key: seq<byte>, found: Option<Item>): (r: seq<byte>)
    ensures found.Some? && found.value.data != [] ==> r == ValueReply(key, found.value)
    ensures found.None? || found.value.data == [] ==> r == EmptyGetReply
  {
    if found.Some? && found.value.data != [] then ValueReply(key, found.value) else EmptyGetReply
  }

  // ---------------------------------------------------------------------
  // The GET loop over the items it takes

  /** `expiry == 0 or expiry >= now`, the clock in whole seconds. */
  predicate Live(it: Item, now: int)
  {
    it.expiry == 0 || it.expiry >= now
  }

  /** How a GET ends: no item (a miss, or a taken value that is empty and so
      false), a live item, or a taken value too short to unpack, which
      raises. */
  datatype GetOutcome = NoItem | Found(item: Item) | Undecodable

  /** The loop of `get(key)` over the items `take` returns, oldest first:
      expired items are dropped and counted until a live one, an empty
      value, an undecodable value or the end of the queue. Every step takes
      one item, so `expired + 1` items are taken in all. */
  datatype Scan = Scan(expired: nat, outcome: GetOutcome)

  function ScanItems(items: seq<seq<byte>>, now: int): Scan
  {
    if items == [] || items[0] == [] then Scan(0, NoItem)
    else match DecodeItem(items[0])
      case None => Scan(0, Undecodable)
      case Some(it) =>
        if Live(it, now) then Scan(0, Found(it))
        else var s := ScanItems(items[1..], now); Scan(s.expired + 1, s.outcome)
  }

  /** GET answers with the oldest item that has not expired: every item it
      discards before it is a decodable expired item, and the item it stops
      at explains the outcome. */
  lemma {:induction false} ScanFindsOldestLive(items: seq<seq<byte>>, now: int)
    ensures ScanItems(items, now).expired <= |items|
    ensures forall i | 0 <= i < ScanItems(items, now).expired ::
              items[i] != [] && DecodeItem(items[i]).Some? && !Live(DecodeItem(items[i]).value, now)
    ensures var s := ScanItems(items, now);
            s.outcome.NoItem? <==> s.expired == |items| || items[s.expired] == []
    ensures var s := ScanItems(items, now);
            s.outcome.Found? ==> s.expired < |items| && DecodeItem(items[s.expired]) == Some(s.outcome.item)
                                 && Live(s.outcome.item, now)
    ensures var s := ScanItems(items, now);
            s.outcome.Undecodable? <==> s.expired < |items| && items[s.expired] != [] && DecodeItem(items[s.expired]).None?
  {
    if items != [] && items[0] != [] && DecodeItem(items[0]).Some? && !Live(DecodeItem(items[0]).value, now) {
      var s := ScanItems(items[1..], now);
      ScanFindsOldestLive(items[1..], now);
      forall i | 0 <= i < s.expired + 1
        ensures items[i] != [] && DecodeItem(items[i]).Some? && !Live(DecodeItem(items[i]).value, now)
      {
        if i > 0 { assert items[i] == items[1..][i - 1]; }
      }
      if s.expired < |items[1..]| {
        assert items[s.expired + 1] == items[1..][s.expired];
      }
    }
  }

  /** An item stored by SET with an expiry of 0 never expires: a GET that
      reaches it answers with it. */
  lemma NeverExpires(it: Item, rest: seq<seq<byte>>, now: int)
    requires it.expiry == 0
    ensures ScanItems([EncodeItem(it)] + rest, now) == Scan(0, Found(it))
  {
    DecodeItemRoundTrip(it);
  }

  // ---------------------------------------------------------------------
  // Per-queue STATS lines

  /** What `queue_stats` reports for one registered queue. */
  datatype QueueStat = QueueStat(name: seq<byte>, size: nat, totalItems: nat, logSize: nat, expired: nat)

  const StatWord: seq<byte> := Ascii("STAT queue_")

  const ItemsField: seq<byte> := Ascii("_items")
  const TotalItemsField: seq<byte> := Ascii("_total_items")
  const LogSizeField: seq<byte> := Ascii("_logsize")
  const ExpiredField: seq<byte> := Ascii("_expired_items")

  /** `STAT queue_<name><field> <n>` without its line end. */
  function StatLine(name: seq<byte>, field: seq<byte>, n: nat): (r: seq<byte>)
    ensures |r| > 0 && r[0] == 'S' as int
  {
    StatWord + name + field + [SP] + Decimal(n)
  }

  /** The STAT lines of one queue, each field on its own line: every line
      but the last ends in CR LF and the last in `end`. */
  function StatLines(name: seq<byte>, fields: seq<(seq<byte>, nat)>, end: seq<byte>): (r: seq<byte>)
    requires fields != []
    ensures |r| > |end| && r[0] == 'S' as int && r[|r| - |end|..] == end
  {
    var line := StatLine(name, fields[0].0, fields[0].1);
    if |fields| == 1 then line + end
    else
      var rest := StatLines(name, fields[1..], end);
      assert (line + CRLF + rest)[|line + CRLF + rest| - |end|..] == rest[|rest| - |end|..];
      line + CRLF + rest
  }

  /** The four counters `queue_stats` reports per queue, in order. */
  function QueueFields(q: QueueStat): seq<(seq<byte>, nat)>
  {
    [(ItemsField, q.size), (TotalItemsField, q.totalItems), (LogSizeField, q.logSize), (ExpiredField, q.expired)]
  }

  /** `QUEUE_STATS_RESPONSE % (...)` as written: the last line ends in a bare
      CR. */
  function QueueStatBlockAsWritten(q: QueueStat): (r: seq<byte>)
    ensures |r| > 0 && r[0] == 'S' as int && r[|r| - 1] == CR
  {
    StatLines(q.name, QueueFields(q), [CR])
  }

  /** The block with every line ended by CR LF. */
  function QueueStatBlock(q: QueueStat): (r: seq<byte>)
    ensures |r| >= 2 && r[|r| - 2..] == CRLF
  {
    StatLines(q.name, QueueFields(q), CRLF)
  }

  function QueueStatsTextAsWritten(qs: seq<QueueStat>): seq<byte>
  {
    if qs == [] then [] else QueueStatsTextAsWritten(qs[..|qs| - 1]) + QueueStatBlockAsWritten(qs[|qs| - 1])
  }

  /** The per-queue part of the STATS reply: the blocks in registry order,
      which with CR LF line ends leaves every block on lines of its own and
      the text ending with a complete line. */
  function QueueStatsText(qs: seq<QueueStat>): (r: seq<byte>)
    ensures qs == [] ==> r == []
    ensures qs != [] ==> |r| >= 2 && r[|r| - 2..] == CRLF
  {
    if qs == [] then []
    else
      var t := QueueStatsText(qs[..|qs| - 1]);
      var b := QueueStatBlock(qs[|qs| - 1]);
      assert (t + b)[|t + b| - 2..] == b[|b| - 2..];
      t + b
  }

  /** One more queue appends its block to the text. */
  lemma QueueStatsTextSnoc(qs: seq<QueueStat>, q: QueueStat)
    ensures QueueStatsText(qs + [q]) == QueueStatsText(qs) + QueueStatBlock(q)
  {
    assert (qs + [q])[..|qs|] == qs;
  }

  /** The text of two runs of queues is one text after the other. */
  lemma {:induction false} QueueStatsTextAppend(xs: seq<QueueStat>, ys: seq<QueueStat>)
    ensures QueueStatsText(xs + ys) == QueueStatsText(xs) + QueueStatsText(ys)
    decreases |ys|
  {
    if ys == [] {
      assert xs + ys == xs;
    } else {
      var init := ys[..|ys| - 1];
      assert ys == init + [ys[|ys| - 1]];
      QueueStatsTextAppend(xs, init);
      QueueStatsTextAppendStep(xs, init, ys[|ys| - 1]);
    }
  }

  /** The inductive step of `QueueStatsTextAppend`: one more queue at the end. */
  lemma QueueStatsTextAppendStep(xs: seq<QueueStat>, init: seq<QueueStat>, last: QueueStat)
    requires QueueStatsText(xs + init) == QueueStatsText(xs) + QueueStatsText(init)
    ensures QueueStatsText(xs + (init + [last])) == QueueStatsText(xs) + QueueStatsText(init + [last])
  {
    ConcatAssociates(xs, init, [last]);
    QueueStatsTextSnoc(xs + init, last);
    QueueStatsTextSnoc(init, last);
    ConcatAssociates(QueueStatsText(xs), QueueStatsText(init), QueueStatBlock(last));
  }

  lemma ConcatAssociates<T>(a: seq<T>, b: seq<T>, c: seq<T>)
    ensures (a + b) + c == a + (b + c)
  {
  }

  /** As written, with two queues the first block's last line runs into the
      second block: its CR is followed by the `S` of the next STAT line, not
      by LF. */
  lemma QueueStatsRunTogether(a: QueueStat, b: QueueStat)
    ensures var t := QueueStatsTextAsWritten([a, b]); var i := |QueueStatBlockAsWritten(a)| - 1;
            0 <= i < i + 1 < |t| && t[i] == CR && t[i + 1] == 'S' as int
  {
    var x := QueueStatBlockAsWritten(a);
    var y := QueueStatBlockAsWritten(b);
    TwoBlocksAsWritten(a, b);
    assert (x + y)[|x|] == y[0];
  }

  /** Two queues give their two blocks, one after the other. */
  lemma TwoBlocksAsWritten(a: QueueStat, b: QueueStat)
    ensures QueueStatsTextAsWritten([a, b]) == QueueStatBlockAsWritten(a) + QueueStatBlockAsWritten(b)
  {
    assert [a][..0] == [];
    assert QueueStatsTextAsWritten([a]) == QueueStatBlockAsWritten(a);
    assert [a, b][..1] == [a];
  }
}
