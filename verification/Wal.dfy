// The write-ahead log: records as bytes, and recovery (src/storage/wal_manager.cpp:38-170, 235-261, 286-488).
module Wal {
  import opened Wrappers
  import opened Bytes
  import opened Records

  const HEADER_SIZE: nat := 24
  const FIXED_SIZE: nat := 29
  const MAGIC: U32 := 0xdeadbeef

  const BEGIN_TRANSACTION: Byte := 1
  const COMMIT_TRANSACTION: Byte := 2
  const ABORT_TRANSACTION: Byte := 3
  const CREATE_NODE: Byte := 4
  const UPDATE_NODE: Byte := 5
  const DELETE_NODE: Byte := 6
  const CHECKPOINT: Byte := 10

  datatype Payload = Nothing | NodeData(node: U64, properties: seq<Property>) | CheckpointAt(at: U64)

  datatype LogRecord = LogRecord(lsn: U64, tx: U64, kind: Byte, timestamp: U64, dataSize: U32, data: Payload)

  /** What one attempt to read a record gives: the bytes left, unless they ran out. */
  datatype Attempt = Read(record: LogRecord, rest: seq<Byte>) | Unknown(rest: seq<Byte>) | Short

  // ----- Writing -----

  /** The index of the alternative the value holds. */
  function ValueType(value: Value): U32 {
    match value
    case String(_) => 0
    case Integer(_) => 1
    case Float(_) => 2
    case Boolean(_) => 3
    case Blob(_) => 4
  }

  /** Lengths are cut to 32 bits. */
  function KeyBytes(p: Property): seq<Byte> {
    var len: U32 := |p.key| % 0x1_0000_0000;
    LittleEndian(len, 4) + (p.key[..len] + LittleEndian(ValueType(p.value), 4))
  }

  function KeysBytes(properties: seq<Property>): seq<Byte> {
    if properties == [] then [] else KeyBytes(properties[0]) + KeysBytes(properties[1..])
  }

  function PayloadBytes(data: Payload): seq<Byte> {
    match data
    case Nothing => []
    case NodeData(node, properties) =>
      LittleEndian(node, 8) + (LittleEndian(|properties| % 0x1_0000_0000, 4) + KeysBytes(properties))
    case CheckpointAt(at) => LittleEndian(at, 8)
  }

  function FixedBytes(r: LogRecord): (bytes: seq<Byte>)
    ensures |bytes| == FIXED_SIZE
  {
    LittleEndian(r.lsn, 8) + (LittleEndian(r.tx, 8) + ([r.kind] + (LittleEndian(r.timestamp, 8) + LittleEndian(r.dataSize, 4))))
  }

  function RecordBytes(r: LogRecord): seq<Byte> {
    FixedBytes(r) + PayloadBytes(r.data)
  }

  function LogBytes(records: seq<LogRecord>): seq<Byte> {
    if records == [] then [] else RecordBytes(records[0]) + LogBytes(records[1..])
  }

  /** The kinds for which reader and writer agree, with lengths that fit their fields. */
  predicate Loggable(r: LogRecord) {
    match r.data
    case Nothing => r.kind == BEGIN_TRANSACTION || r.kind == COMMIT_TRANSACTION || r.kind == ABORT_TRANSACTION
    case NodeData(_, properties) =>
      (r.kind == CREATE_NODE || r.kind == UPDATE_NODE) && |properties| < 0x1_0000_0000
      && forall i :: 0 <= i < |properties| ==> |properties[i].key| < 0x1_0000_0000
    case CheckpointAt(_) => r.kind == CHECKPOINT
  }

  // ----- Reading -----

  /** "placeholder" */
  const PLACEHOLDER: Value := String([112, 108, 97, 99, 101, 104, 111, 108, 100, 101, 114])

  /** The loop from property i of `count` on. */
  function ParseKeys(data: seq<Byte>, i: nat, count: U32, before: seq<Property>): Option<(seq<Property>, seq<Byte>)>
    requires i <= count
    decreases count - i
  {
    if i == count then Some((before, data))
    else if |data| < 4 then None
    else
      var len := Read32(data);
      if |data| < 4 + len + 4 then None
      else ParseKeys(data[4 + len + 4..], i + 1, count, before + [Property(data[4..4 + len], PLACEHOLDER)])
  }

  function ParsePayload(kind: Byte, data: seq<Byte>): Option<(Payload, seq<Byte>)>
    requires kind in {1, 2, 3, 4, 5, 6, 10}
  {
    if kind <= ABORT_TRANSACTION then Some((Nothing, data))
    else if kind == CHECKPOINT then
      if |data| < 8 then None else Some((CheckpointAt(Read64(data)), data[8..]))
    else if |data| < 8 then None
    else if kind == DELETE_NODE then Some((NodeData(Read64(data), []), data[8..]))
    else if |data| < 12 then None
    else
      match ParseKeys(data[12..], 0, Read32(data[8..]), [])
      case None => None
      case Some((properties, rest)) => Some((NodeData(Read64(data), properties), rest))
  }

  function ParseRecord(data: seq<Byte>): Attempt {
    if |data| < FIXED_SIZE then Short
    else
      var kind := data[16];
      if kind !in {1, 2, 3, 4, 5, 6, 10} then Unknown(data[FIXED_SIZE..])
      else
        match ParsePayload(kind, data[FIXED_SIZE..])
        case None => Short
        case Some((payload, rest)) =>
          Read(LogRecord(Read64(data), Read64(data[8..]), kind, Read64(data[17..]), Read32(data[25..]), payload), rest)
  }

  method ReadKeys(data0: seq<Byte>, count: U32) returns (result: Option<(seq<Property>, seq<Byte>)>)
    ensures result == ParseKeys(data0, 0, count, [])
  {
    var data := data0;
    var properties: seq<Property> := [];
    for i := 0 to count
      invariant ParseKeys(data0, 0, count, []) == ParseKeys(data, i, count, properties)
    {
      if |data| < 4 {
        return None;
      }
      var len: nat := Read32(data);
      if |data| < 4 + len + 4 {
        return None;
      }
      properties := properties + [Property(data[4..4 + len], PLACEHOLDER)];
      data := data[4 + len + 4..];
    }
    return Some((properties, data));
  }

  method ReadRecord(data: seq<Byte>) returns (result: Attempt)
    ensures result == ParseRecord(data)
  {
    if |data| < FIXED_SIZE {
      return Short;
    }
    var lsn, tx, kind, timestamp, dataSize := Read64(data), Read64(data[8..]), data[16], Read64(data[17..]), Read32(data[25..]);
    var rest := data[FIXED_SIZE..];
    var payload := Nothing;
    if kind == BEGIN_TRANSACTION || kind == COMMIT_TRANSACTION || kind == ABORT_TRANSACTION {
    } else if kind == CREATE_NODE || kind == UPDATE_NODE || kind == DELETE_NODE {
      if |rest| < 8 {
        return Short;
      }
      var node := Read64(rest);
      if kind == DELETE_NODE {
        payload, rest := NodeData(node, []), rest[8..];
      } else {
        if |rest| < 12 {
          return Short;
        }
        var keys := ReadKeys(rest[12..], Read32(rest[8..]));
        if keys.None? {
          return Short;
        }
        payload, rest := NodeData(node, keys.value.0), keys.value.1;
      }
    } else if kind == CHECKPOINT {
      if |rest| < 8 {
        return Short;
      }
      payload, rest := CheckpointAt(Read64(rest)), rest[8..];
    } else {
      return Unknown(rest);
    }
    return Read(LogRecord(lsn, tx, kind, timestamp, dataSize, payload), rest);
  }

  // ----- Round trip and framing of one record -----

  /** What a reader gets back: the keys, with a placeholder for every value. */
  function KeysOnly(properties: seq<Property>): seq<Property> {
    seq(|properties|, i requires 0 <= i < |properties| => Property(properties[i].key, PLACEHOLDER))
  }

  function AsRead(r: LogRecord): LogRecord {
    match r.data
    case NodeData(node, properties) => r.(data := NodeData(node, KeysOnly(properties)))
    case _ => r
  }

  /** What is lost: the values, and nothing else. */
  lemma AsReadExact(r: LogRecord)
    ensures var read := AsRead(r);
            && read.lsn == r.lsn && read.tx == r.tx && read.kind == r.kind && read.timestamp == r.timestamp
            && read.dataSize == r.dataSize
            && match r.data
               case NodeData(node, properties) =>
                 && read.data.NodeData? && read.data.node == node && |read.data.properties| == |properties|
                 && (forall i :: 0 <= i < |properties| ==>
                       && read.data.properties[i].key == properties[i].key
                       && read.data.properties[i].value == String([112, 108, 97, 99, 101, 104, 111, 108, 100, 101, 114]))
               case _ => read.data == r.data
  {
  }

  /** The numbers that stand for the types of records. */
  lemma KindCodes()
    ensures BEGIN_TRANSACTION == 1 && COMMIT_TRANSACTION == 2 && ABORT_TRANSACTION == 3
    ensures CREATE_NODE == 4 && UPDATE_NODE == 5 && DELETE_NODE == 6 && CHECKPOINT == 10
  {
  }

  lemma KeyRoundTrip(p: Property, rest: seq<Byte>)
    requires |p.key| < 0x1_0000_0000
    ensures var data := KeyBytes(p) + rest;
            |data| >= 8 + |p.key| && Read32(data) == |p.key| && data[4..4 + |p.key|] == p.key && data[8 + |p.key|..] == rest
  {
    hide LittleEndian, Read32;
    var data := KeyBytes(p) + rest;
    var tail := p.key + (LittleEndian(ValueType(p.value), 4) + rest);
    assert p.key[..|p.key|] == p.key;
    assert data == LittleEndian(|p.key|, 4) + tail;
    Read32RoundTrip(|p.key|, tail);
  }

  lemma {:induction false} KeysRoundTrip(properties: seq<Property>, i: nat, rest: seq<Byte>)
    requires i <= |properties| < 0x1_0000_0000
    requires forall j :: 0 <= j < |properties| ==> |properties[j].key| < 0x1_0000_0000
    ensures ParseKeys(KeysBytes(properties[i..]) + rest, i, |properties|, KeysOnly(properties[..i]))
            == Some((KeysOnly(properties), rest))
    decreases |properties| - i
  {
    hide KeyBytes, Read32;
    if i == |properties| {
      assert properties[..i] == properties && KeysBytes(properties[i..]) + rest == rest;
    } else {
      var p := properties[i];
      assert properties[i..][1..] == properties[i + 1..];
      var after := KeysBytes(properties[i + 1..]) + rest;
      assert KeysBytes(properties[i..]) + rest == KeyBytes(p) + after;
      KeyRoundTrip(p, after);
      assert KeysOnly(properties[..i + 1]) == KeysOnly(properties[..i]) + [Property(p.key, PLACEHOLDER)];
      KeysRoundTrip(properties, i + 1, rest);
    }
  }

  lemma PayloadRoundTrip(r: LogRecord, rest: seq<Byte>)
    requires Loggable(r)
    ensures r.kind in {1, 2, 3, 4, 5, 6, 10}
    ensures ParsePayload(r.kind, PayloadBytes(r.data) + rest) == Some((AsRead(r).data, rest))
  {
    hide LittleEndian, Read32, Read64;
    var data := PayloadBytes(r.data) + rest;
    match r.data {
      case Nothing => assert data == rest;
      case CheckpointAt(at) => Read64RoundTrip(at, rest);
      case NodeData(node, properties) =>
        var keys := KeysBytes(properties) + rest;
        var tail := LittleEndian(|properties|, 4) + keys;
        assert data == LittleEndian(node, 8) + tail;
        Read64RoundTrip(node, tail);
        Read32RoundTrip(|properties|, keys);
        assert data[12..] == data[8..][4..] == keys;
        assert properties[0..] == properties && KeysOnly(properties[..0]) == [];
        KeysRoundTrip(properties, 0, rest);
    }
  }

  lemma FixedRoundTrip(r: LogRecord, rest: seq<Byte>)
    ensures var data := FixedBytes(r) + rest;
            Read64(data) == r.lsn && Read64(data[8..]) == r.tx && data[16] == r.kind && Read64(data[17..]) == r.timestamp
            && Read32(data[25..]) == r.dataSize && data[FIXED_SIZE..] == rest
  {
    hide LittleEndian, Read32, Read64;
    var t4 := LittleEndian(r.dataSize, 4) + rest;
    var t3 := LittleEndian(r.timestamp, 8) + t4;
    var t2 := [r.kind] + t3;
    var t1 := LittleEndian(r.tx, 8) + t2;
    var data := LittleEndian(r.lsn, 8) + t1;
    assert FixedBytes(r) + rest == data;
    Read64RoundTrip(r.lsn, t1);
    Read64RoundTrip(r.tx, t2);
    Read64RoundTrip(r.timestamp, t4);
    Read32RoundTrip(r.dataSize, rest);
    assert data[8..] == t1 && data[16..] == t2 && data[17..] == t3 && data[25..] == t4 && data[FIXED_SIZE..] == rest;
  }

  /** The bytes of the payload: an id, a count and the keys, a checkpoint's LSN, or none. */
  lemma PayloadLayout(data: Payload)
    ensures var bytes := PayloadBytes(data);
            match data
            case Nothing => bytes == []
            case CheckpointAt(at) => |bytes| == 8 && Read64(bytes) == at
            case NodeData(node, properties) =>
              && |bytes| >= 12 && Read64(bytes) == node && Read32(bytes[8..]) == |properties| % 0x1_0000_0000
              && bytes[12..] == KeysBytes(properties)
  {
    hide LittleEndian, Read32, Read64;
    match data {
      case Nothing =>
      case CheckpointAt(at) =>
        Read64RoundTrip(at, []);
        assert LittleEndian(at, 8) + [] == LittleEndian(at, 8);
      case NodeData(node, properties) =>
        var count: U32 := |properties| % 0x1_0000_0000;
        var tail := LittleEndian(count, 4) + KeysBytes(properties);
        Read64RoundTrip(node, tail);
        Read32RoundTrip(count, KeysBytes(properties));
        assert (LittleEndian(node, 8) + tail)[8..] == tail;
        assert (LittleEndian(node, 8) + tail)[12..] == tail[4..] == KeysBytes(properties);
    }
  }

  /** The fixed part of a record field by field, and the payload behind it. */
  lemma RecordLayout(r: LogRecord)
    ensures var bytes := RecordBytes(r);
            && |bytes| >= 29 && Read64(bytes) == r.lsn && Read64(bytes[8..]) == r.tx && bytes[16] == r.kind
            && Read64(bytes[17..]) == r.timestamp && Read32(bytes[25..]) == r.dataSize && bytes[29..] == PayloadBytes(r.data)
  {
    hide FixedBytes, PayloadBytes, Read32, Read64;
    FixedRoundTrip(r, PayloadBytes(r.data));
  }

  /** Keys stand one behind the other, each with its length in front and the index of its value's type behind. */
  lemma KeysLayout(p: Property, later: seq<Property>)
    ensures KeysBytes([]) == []
    ensures var bytes := KeysBytes([p] + later);
            var n := |p.key| % 0x1_0000_0000;
            && |bytes| >= n + 8 && Read32(bytes) == n && bytes[4..n + 4] == p.key[..n] && bytes[n + 8..] == KeysBytes(later)
            && Read32(bytes[n + 4..]) == match p.value
                                         case String(_) => 0
                                         case Integer(_) => 1
                                         case Float(_) => 2
                                         case Boolean(_) => 3
                                         case Blob(_) => 4
  {
    hide LittleEndian, Read32;
    var n: U32 := |p.key| % 0x1_0000_0000;
    var bytes := KeysBytes([p] + later);
    var tail := LittleEndian(ValueType(p.value), 4) + KeysBytes(later);
    assert ([p] + later)[1..] == later;
    assert bytes == LittleEndian(n, 4) + (p.key[..n] + tail);
    Read32RoundTrip(n, p.key[..n] + tail);
    assert bytes[n + 4..] == tail;
    Read32RoundTrip(ValueType(p.value), KeysBytes(later));
    assert bytes[n + 8..] == tail[4..] == KeysBytes(later);
  }

  lemma RecordRoundTrip(r: LogRecord, rest: seq<Byte>)
    requires Loggable(r)
    ensures ParseRecord(RecordBytes(r) + rest) == Read(AsRead(r), rest)
  {
    hide FixedBytes, PayloadBytes, ParsePayload, Read32, Read64;
    assert RecordBytes(r) + rest == FixedBytes(r) + (PayloadBytes(r.data) + rest);
    FixedRoundTrip(r, PayloadBytes(r.data) + rest);
    PayloadRoundTrip(r, rest);
  }

  lemma {:induction false} KeysExtend(data: seq<Byte>, i: nat, count: U32, before: seq<Property>, more: seq<Byte>)
    requires i <= count && ParseKeys(data, i, count, before).Some?
    ensures var (properties, rest) := ParseKeys(data, i, count, before).value;
            ParseKeys(data + more, i, count, before) == Some((properties, rest + more))
    decreases count - i
  {
    hide Read32;
    if i < count {
      var len: nat := Read32(data);
      Read32Extends(data, more);
      assert (data + more)[4..4 + len] == data[4..4 + len] && (data + more)[4 + len + 4..] == data[4 + len + 4..] + more;
      KeysExtend(data[4 + len + 4..], i + 1, count, before + [Property(data[4..4 + len], PLACEHOLDER)], more);
    }
  }

  lemma Read32Extends(data: seq<Byte>, more: seq<Byte>)
    requires |data| >= 4
    ensures Read32(data + more) == Read32(data)
  {
    assert (data + more)[..4] == data[..4];
  }

  lemma Read64Extends(data: seq<Byte>, more: seq<Byte>)
    requires |data| >= 8
    ensures Read64(data + more) == Read64(data)
  {
    assert (data + more)[..8] == data[..8];
  }

  lemma PayloadExtends(kind: Byte, data: seq<Byte>, more: seq<Byte>)
    requires kind in {1, 2, 3, 4, 5, 6, 10} && ParsePayload(kind, data).Some?
    ensures var (payload, rest) := ParsePayload(kind, data).value;
            ParsePayload(kind, data + more) == Some((payload, rest + more))
  {
    hide Read32, Read64, ParseKeys;
    var longer := data + more;
    if kind > ABORT_TRANSACTION {
      Read64Extends(data, more);
      assert longer[8..] == data[8..] + more;
      if kind == CREATE_NODE || kind == UPDATE_NODE {
        Read32Extends(data[8..], more);
        assert longer[12..] == data[12..] + more;
        KeysExtend(data[12..], 0, Read32(data[8..]), [], more);
      }
    }
  }

  lemma FixedExtends(data: seq<Byte>, more: seq<Byte>)
    requires |data| >= FIXED_SIZE
    ensures var longer := data + more;
            Read64(longer) == Read64(data) && Read64(longer[8..]) == Read64(data[8..]) && longer[16] == data[16]
            && Read64(longer[17..]) == Read64(data[17..]) && Read32(longer[25..]) == Read32(data[25..])
            && longer[FIXED_SIZE..] == data[FIXED_SIZE..] + more
  {
    hide Read32, Read64;
    var longer := data + more;
    Read64Extends(data, more);
    assert longer[8..] == data[8..] + more && longer[17..] == data[17..] + more && longer[25..] == data[25..] + more;
    Read64Extends(data[8..], more);
    Read64Extends(data[17..], more);
    Read32Extends(data[25..], more);
  }

  /** What follows a record is never looked at. */
  lemma RecordExtends(data: seq<Byte>, more: seq<Byte>)
    ensures match ParseRecord(data)
            case Read(r, rest) => ParseRecord(data + more) == Read(r, rest + more)
            case Unknown(rest) => ParseRecord(data + more) == Unknown(rest + more)
            case Short => true
  {
    hide Read32, Read64, ParsePayload;
    if |data| >= FIXED_SIZE {
      FixedExtends(data, more);
      if data[16] in {1, 2, 3, 4, 5, 6, 10} && ParsePayload(data[16], data[FIXED_SIZE..]).Some? {
        PayloadExtends(data[16], data[FIXED_SIZE..], more);
      }
    }
  }

  /** A record cut off at any byte is reported as short. */
  lemma CutRecordIsShort(r: LogRecord, n: nat)
    requires Loggable(r) && n < |RecordBytes(r)|
    ensures ParseRecord(RecordBytes(r)[..n]) == Short
  {
    hide RecordBytes, ParseRecord;
    var bytes := RecordBytes(r);
    assert bytes[..n] + bytes[n..] == bytes + [];
    RecordExtends(bytes[..n], bytes[n..]);
    RecordRoundTrip(r, []);
  }

  // ----- Recovery -----

  /** The records handed to the callback in order, and whether it refused the last of them. */
  datatype Outcome = Outcome(handed: seq<LogRecord>, refused: bool)

  lemma ParseShrinks(data: seq<Byte>)
    ensures ParseRecord(data).Read? ==> |ParseRecord(data).rest| < |data|
    ensures ParseRecord(data).Unknown? ==> |ParseRecord(data).rest| < |data|
  {
    if |data| >= FIXED_SIZE && data[16] in {1, 2, 3, 4, 5, 6, 10} {
      PayloadShrinks(data[16], data[FIXED_SIZE..]);
    }
  }

  lemma PayloadShrinks(kind: Byte, data: seq<Byte>)
    requires kind in {1, 2, 3, 4, 5, 6, 10}
    ensures ParsePayload(kind, data).Some? ==> |ParsePayload(kind, data).value.1| <= |data|
  {
    if |data| >= 12 && (kind == CREATE_NODE || kind == UPDATE_NODE) {
      KeysShrink(data[12..], 0, Read32(data[8..]), []);
    }
  }

  lemma {:induction false} KeysShrink(data: seq<Byte>, i: nat, count: U32, before: seq<Property>)
    requires i <= count
    ensures ParseKeys(data, i, count, before).Some? ==> |ParseKeys(data, i, count, before).value.1| <= |data|
    decreases count - i
  {
    if i < count && |data| >= 4 {
      var len: nat := Read32(data);
      if |data| >= 4 + len + 4 {
        KeysShrink(data[4 + len + 4..], i + 1, count, before + [Property(data[4..4 + len], PLACEHOLDER)]);
      }
    }
  }

  /** Records of unknown type are skipped; a short read ends the replay, and so does a refusal. */
  function Replay(data: seq<Byte>, accepts: LogRecord -> bool): Outcome
    decreases |data|
  {
    ParseShrinks(data);
    match ParseRecord(data)
    case Short => Outcome([], false)
    case Unknown(rest) => Replay(rest, accepts)
    case Read(r, rest) =>
      if accepts(r) then
        var later := Replay(rest, accepts);
        Outcome([r] + later.handed, later.refused)
      else Outcome([r], true)
  }

  /** The scan that sets the next LSN when a log is opened: it stops at the first failure of any kind. */
  function Scan(data: seq<Byte>): seq<LogRecord>
    decreases |data|
  {
    ParseShrinks(data);
    match ParseRecord(data)
    case Read(r, rest) => [r] + Scan(rest)
    case _ => []
  }

  function MaxLsn(records: seq<LogRecord>): U64 {
    if records == [] then 0
    else
      var before := MaxLsn(records[..|records| - 1]);
      if before < records[|records| - 1].lsn then records[|records| - 1].lsn else before
  }

  /** max + 1 in 64 bits. */
  function NextLsn(records: seq<LogRecord>): U64 {
    if MaxLsn(records) == RANGE_64 - 1 then 0 else MaxLsn(records) + 1
  }

  /** Handing over records one by one until one is refused. */
  function HandOver(records: seq<LogRecord>, accepts: LogRecord -> bool): Outcome {
    if records == [] then Outcome([], false)
    else if !accepts(records[0]) then Outcome([records[0]], true)
    else
      var later := HandOver(records[1..], accepts);
      Outcome([records[0]] + later.handed, later.refused)
  }

  function AllAsRead(records: seq<LogRecord>): seq<LogRecord> {
    seq(|records|, i requires 0 <= i < |records| => AsRead(records[i]))
  }

  ghost predicate AllLoggable(records: seq<LogRecord>) {
    forall i :: 0 <= i < |records| ==> Loggable(records[i])
  }

  /** Exactly the first k records lie whole in the first n bytes of the log. */
  ghost predicate WholeRecords(records: seq<LogRecord>, n: nat, k: nat) {
    && k <= |records| && |LogBytes(records[..k])| <= n <= |LogBytes(records)|
    && (k < |records| ==> n < |LogBytes(records[..k + 1])|)
  }

  lemma LogOfCons(r: LogRecord, records: seq<LogRecord>)
    ensures LogBytes([r] + records) == RecordBytes(r) + LogBytes(records)
  {
    assert ([r] + records)[1..] == records;
  }

  lemma LogOfNone()
    ensures LogBytes([]) == []
  {
  }

  lemma {:induction false} LogConcat(a: seq<LogRecord>, b: seq<LogRecord>)
    ensures LogBytes(a + b) == LogBytes(a) + LogBytes(b)
  {
    hide RecordBytes, LogBytes;
    if a == [] {
      assert a + b == b;
      LogOfNone();
    } else {
      LogConcat(a[1..], b);
      LogOfCons(a[0], a[1..]);
      LogOfCons(a[0], a[1..] + b);
      assert [a[0]] + a[1..] == a && [a[0]] + (a[1..] + b) == a + b;
    }
  }

  /** The replay of a log cut anywhere hands over exactly the whole records, in order. */
  lemma {:induction false} ReplayOfCutLog(records: seq<LogRecord>, n: nat, k: nat, accepts: LogRecord -> bool)
    requires AllLoggable(records) && WholeRecords(records, n, k)
    ensures Replay(LogBytes(records)[..n], accepts) == HandOver(AllAsRead(records[..k]), accepts)
    ensures Scan(LogBytes(records)[..n]) == AllAsRead(records[..k])
  {
    hide ParseRecord, RecordBytes, AsRead;
    var data := LogBytes(records)[..n];
    if records == [] {
      assert ParseRecord(data) == Short by { EmptyIsShort(); }
    } else {
      var r, later := records[0], records[1..];
      var size := |RecordBytes(r)|;
      assert LogBytes(records) == RecordBytes(r) + LogBytes(later);
      if k == 0 {
        OneRecord(records);
        assert data == RecordBytes(r)[..n];
        CutRecordIsShort(r, n);
      } else {
        WholeAfterFirst(records, n, k);
        assert data == RecordBytes(r) + LogBytes(later)[..n - size];
        RecordRoundTrip(r, LogBytes(later)[..n - size]);
        ReplayOfCutLog(later, n - size, k - 1, accepts);
        var whole := AllAsRead(records[..k]);
        assert whole == [AsRead(r)] + AllAsRead(later[..k - 1]) && whole[1..] == AllAsRead(later[..k - 1]);
      }
    }
  }

  lemma EmptyIsShort()
    ensures ParseRecord([]) == Short
  {
  }

  lemma OneRecord(records: seq<LogRecord>)
    requires records != []
    ensures LogBytes(records[..1]) == RecordBytes(records[0])
  {
    hide RecordBytes;
    assert records[..1] == [records[0]];
    assert LogBytes([records[0]]) == RecordBytes(records[0]) + LogBytes([]);
  }

  lemma WholeAfterFirst(records: seq<LogRecord>, n: nat, k: nat)
    requires records != [] && k > 0 && WholeRecords(records, n, k)
    ensures |RecordBytes(records[0])| <= n && WholeRecords(records[1..], n - |RecordBytes(records[0])|, k - 1)
  {
    hide RecordBytes;
    var later := records[1..];
    assert records[..k][0] == records[0] && records[..k][1..] == later[..k - 1];
    if k < |records| {
      assert records[..k + 1][0] == records[0] && records[..k + 1][1..] == later[..k];
    }
  }

  /** A callback that refuses nothing is handed everything. */
  lemma {:induction false} HandOverAll(records: seq<LogRecord>, accepts: LogRecord -> bool)
    requires forall i :: 0 <= i < |records| ==> accepts(records[i])
    ensures HandOver(records, accepts) == Outcome(records, false)
  {
    if records != [] {
      HandOverAll(records[1..], accepts);
    }
  }

  /** What is handed over ends with the first record refused, and is everything if there is none. */
  lemma {:induction false} HandOverExact(records: seq<LogRecord>, accepts: LogRecord -> bool)
    ensures var outcome := HandOver(records, accepts);
            && |outcome.handed| <= |records| && outcome.handed == records[..|outcome.handed|]
            && (outcome.refused <==> exists i :: 0 <= i < |records| && !accepts(records[i]))
            && (!outcome.refused ==> |outcome.handed| == |records|)
            && (outcome.refused ==> outcome.handed != [] && !accepts(outcome.handed[|outcome.handed| - 1]))
            && (forall i :: 0 <= i < |outcome.handed| - 1 ==> accepts(outcome.handed[i]))
  {
    if records != [] && accepts(records[0]) {
      var rest := records[1..];
      HandOverExact(rest, accepts);
      var later := HandOver(rest, accepts);
      assert records[..|later.handed| + 1] == [records[0]] + rest[..|later.handed|];
      if i :| 0 <= i < |rest| && !accepts(rest[i]) {
        assert records[i + 1] == rest[i];
      }
      if i :| 0 <= i < |records| && !accepts(records[i]) {
        assert records[i] == rest[i - 1];
      }
    }
  }

  lemma {:induction false} MaxLsnExact(records: seq<LogRecord>)
    ensures forall i :: 0 <= i < |records| ==> records[i].lsn <= MaxLsn(records)
    ensures records != [] ==> exists i :: 0 <= i < |records| && records[i].lsn == MaxLsn(records)
  {
    if records != [] {
      var n := |records| - 1;
      MaxLsnExact(records[..n]);
      assert forall i :: 0 <= i < n ==> records[..n][i] == records[i];
      if MaxLsn(records[..n]) >= records[n].lsn && n > 0 {
        var i :| 0 <= i < n && records[..n][i].lsn == MaxLsn(records[..n]);
        assert records[i].lsn == MaxLsn(records);
      }
    }
  }

  /** The next LSN is above all those seen, unless the last possible one has been used. */
  lemma NextLsnIsNewIff(records: seq<LogRecord>)
    ensures (forall i :: 0 <= i < |records| ==> records[i].lsn < NextLsn(records)) <==>
            (forall i :: 0 <= i < |records| ==> records[i].lsn != RANGE_64 - 1)
  {
    MaxLsnExact(records);
  }

  /** One after the largest LSN, one if there is none, and zero after the last possible one. */
  lemma NextLsnExact(records: seq<LogRecord>)
    ensures records == [] ==> NextLsn(records) == 1
    ensures (exists i :: 0 <= i < |records| && records[i].lsn == 0xFFFF_FFFF_FFFF_FFFF) ==> NextLsn(records) == 0
    ensures records != [] && (forall i :: 0 <= i < |records| ==> records[i].lsn != 0xFFFF_FFFF_FFFF_FFFF) ==>
              && (exists i :: 0 <= i < |records| && NextLsn(records) == records[i].lsn + 1)
              && (forall i :: 0 <= i < |records| ==> records[i].lsn < NextLsn(records))
  {
    MaxLsnExact(records);
  }

  /** Records with consecutive LSNs from one on: the next is one more than their number. */
  lemma NextAfterConsecutive(records: seq<LogRecord>)
    requires forall i :: 0 <= i < |records| ==> records[i].lsn == i + 1
    ensures NextLsn(records) == if |records| == 0xFFFF_FFFF_FFFF_FFFF then 0 else |records| + 1
  {
    hide NextLsn;
    NextLsnExact(records);
    if records != [] {
      assert records[|records| - 1].lsn == |records|;
    }
  }

  // ----- The log file -----

  /** The header in memory: after reading a file, whatever stands there. */
  datatype Header = Header(magic: U32, version: U32, creationTime: U64, lastCheckpoint: U64)

  function PrintedHeader(h: Header): (bytes: seq<Byte>)
    ensures |bytes| == HEADER_SIZE
  {
    LittleEndian(h.magic, 4) + LittleEndian(h.version, 4) + LittleEndian(h.creationTime, 8) + LittleEndian(h.lastCheckpoint, 8)
  }

  function ReadHeader(file: seq<Byte>): Header
    requires |file| >= HEADER_SIZE
  {
    Header(Read32(file), Read32(file[4..]), Read64(file[8..]), Read64(file[16..]))
  }

  function HeaderBytes(creationTime: U64, lastCheckpoint: U64): (bytes: seq<Byte>)
    ensures |bytes| == HEADER_SIZE
  {
    PrintedHeader(Header(MAGIC, 1, creationTime, lastCheckpoint))
  }

  /** The header is there and has the right magic number and version. */
  predicate HeaderOk(file: seq<Byte>) {
    |file| >= HEADER_SIZE && Read32(file) == MAGIC && Read32(file[4..]) == 1
  }

  /** What is read as a header prints as the bytes it was read from. */
  lemma HeaderBack(file: seq<Byte>)
    requires |file| >= HEADER_SIZE
    ensures file[..HEADER_SIZE] == PrintedHeader(ReadHeader(file))
  {
    hide LittleEndian, FromLittleEndian;
    LittleEndianBack(file[..4]);
    LittleEndianBack(file[4..8]);
    LittleEndianBack(file[8..16]);
    LittleEndianBack(file[16..24]);
    assert file[4..][..4] == file[4..8] && file[8..][..8] == file[8..16] && file[16..][..8] == file[16..24];
    assert file[..24] == file[..4] + file[4..8] + file[8..16] + file[16..24];
  }

  /** The four fields of a header, and the bytes by which a good one is known. */
  lemma HeaderLayout(h: Header, file: seq<Byte>)
    ensures var bytes := PrintedHeader(h);
            && |bytes| == 24 && Read32(bytes) == h.magic && Read32(bytes[4..]) == h.version
            && Read64(bytes[8..]) == h.creationTime && Read64(bytes[16..]) == h.lastCheckpoint
    ensures HeaderOk(file) <==> |file| >= 24 && file[..8] == [0xef, 0xbe, 0xad, 0xde, 1, 0, 0, 0]
  {
    hide LittleEndian, FromLittleEndian;
    HeaderFieldsBack(h);
    MagicBytes();
    if |file| >= 24 {
      LittleEndianBack(file[..4]);
      LittleEndianBack(file[4..8]);
      assert file[4..][..4] == file[4..8] && file[..8] == file[..4] + file[4..8];
      assert file[..8][..4] == file[..4] && file[..8][4..] == file[4..8];
      var good: seq<Byte> := [0xef, 0xbe, 0xad, 0xde, 1, 0, 0, 0];
      assert good[..4] == [0xef, 0xbe, 0xad, 0xde] && good[4..] == [1, 0, 0, 0] && good == good[..4] + good[4..];
    }
  }

  lemma HeaderFieldsBack(h: Header)
    ensures var bytes := PrintedHeader(h);
            && Read32(bytes) == h.magic && Read32(bytes[4..]) == h.version
            && Read64(bytes[8..]) == h.creationTime && Read64(bytes[16..]) == h.lastCheckpoint
  {
    hide LittleEndian, Read32, Read64;
    var t3 := LittleEndian(h.lastCheckpoint, 8) + [];
    var t2 := LittleEndian(h.creationTime, 8) + t3;
    var t1 := LittleEndian(h.version, 4) + t2;
    var bytes := LittleEndian(h.magic, 4) + t1;
    assert PrintedHeader(h) == bytes;
    Read32RoundTrip(h.magic, t1);
    Read32RoundTrip(h.version, t2);
    Read64RoundTrip(h.creationTime, t3);
    Read64RoundTrip(h.lastCheckpoint, []);
    assert bytes[4..] == t1 && bytes[8..] == t1[4..] == t2 && bytes[16..] == t2[8..] == t3;
  }

  lemma MagicBytes()
    ensures LittleEndian(0xdeadbeef, 4) == [0xef, 0xbe, 0xad, 0xde] && LittleEndian(1, 4) == [1, 0, 0, 0]
    ensures FromLittleEndian([0xef, 0xbe, 0xad, 0xde]) == 0xdeadbeef && FromLittleEndian([1, 0, 0, 0]) == 1
  {
    assert LittleEndian(0xde, 1) == [0xde];
    assert LittleEndian(0xdead, 2) == [0xad] + LittleEndian(0xde, 1);
    assert LittleEndian(0xdeadbe, 3) == [0xbe] + LittleEndian(0xdead, 2);
    assert LittleEndian(0, 1) == [0] && LittleEndian(0, 2) == [0] + LittleEndian(0, 1);
    assert LittleEndian(0, 3) == [0] + LittleEndian(0, 2);
    Ranges();
    LittleEndianRoundTrip(0xdeadbeef, 4);
    LittleEndianRoundTrip(1, 4);
  }

  lemma NewHeaderOk(creationTime: U64, lastCheckpoint: U64, rest: seq<Byte>)
    ensures HeaderOk(HeaderBytes(creationTime, lastCheckpoint) + rest)
  {
    hide LittleEndian, Read32;
    var tail := LittleEndian(creationTime, 8) + LittleEndian(lastCheckpoint, 8) + rest;
    var file := HeaderBytes(creationTime, lastCheckpoint) + rest;
    assert file == LittleEndian(MAGIC, 4) + (LittleEndian(1, 4) + tail);
    Read32RoundTrip(MAGIC, LittleEndian(1, 4) + tail);
    Read32RoundTrip(1, tail);
  }

  lemma ReplayRead(data: seq<Byte>, accepts: LogRecord -> bool, before: seq<LogRecord>, r: LogRecord, rest: seq<Byte>)
    requires ParseRecord(data) == Read(r, rest) && accepts(r)
    ensures before + Replay(data, accepts).handed == before + [r] + Replay(rest, accepts).handed
    ensures Replay(data, accepts).refused == Replay(rest, accepts).refused
  {
    hide ParseRecord;
    ParseShrinks(data);
    assert Replay(data, accepts).handed == [r] + Replay(rest, accepts).handed;
  }

  /** Loggable records with increasing LSNs below `next`. */
  ghost predicate Numbered(records: seq<LogRecord>, next: U64) {
    && AllLoggable(records)
    && (forall i :: 0 <= i < |records| ==> records[i].lsn < next)
    && (forall i, j :: 0 <= i < j < |records| ==> records[i].lsn < records[j].lsn)
  }

  /** A file that holds a good header and exactly these records. */
  ghost predicate IsLog(file: seq<Byte>, records: seq<LogRecord>) {
    HeaderOk(file) && file[HEADER_SIZE..] == LogBytes(records) && Numbered(records, RANGE_64 - 1)
  }

  /** What opening such a file finds. */
  lemma WholeLog(file: seq<Byte>, records: seq<LogRecord>, accepts: LogRecord -> bool)
    requires IsLog(file, records)
    ensures Scan(file[HEADER_SIZE..]) == AllAsRead(records)
    ensures Replay(file[HEADER_SIZE..], accepts) == HandOver(AllAsRead(records), accepts)
    ensures Numbered(records, NextLsn(AllAsRead(records)))
  {
    hide HeaderOk, Loggable, NextLsn;
    var n := |LogBytes(records)|;
    assert LogBytes(records)[..n] == LogBytes(records) && records[..|records|] == records;
    ReplayOfCutLog(records, n, |records|, accepts);
    NextLsnAfterCut(records, |records|);
  }

  /** The next LSN after opening: above all records up to the first failure, or one after a bad header. */
  function OpenedLsn(file: seq<Byte>): U64 {
    if HeaderOk(file) then NextLsn(Scan(file[HEADER_SIZE..])) else 1
  }

  /** What opening a file can rely on. */
  lemma OpenedLog(file: seq<Byte>, records: seq<LogRecord>)
    ensures |file| >= HEADER_SIZE ==> file[..HEADER_SIZE] == PrintedHeader(ReadHeader(file))
    ensures IsLog(file, records) ==>
              && HeaderOk(file) && file == PrintedHeader(ReadHeader(file)) + LogBytes(records)
              && Numbered(records, OpenedLsn(file))
  {
    hide Numbered, PrintedHeader, ReadHeader, Scan, Replay, NextLsn, LogBytes;
    if |file| >= HEADER_SIZE {
      HeaderBack(file);
    }
    if IsLog(file, records) {
      WholeLog(file, records, r => true);
      assert file == file[..HEADER_SIZE] + file[HEADER_SIZE..];
    }
  }

  /** The counter after opening: one without a good header, otherwise what the records before the first failure give. */
  lemma OpenedLsnExact(file: seq<Byte>)
    ensures !(|file| >= 24 && file[..8] == [0xef, 0xbe, 0xad, 0xde, 1, 0, 0, 0]) ==> OpenedLsn(file) == 1
    ensures |file| >= 24 && file[..8] == [0xef, 0xbe, 0xad, 0xde, 1, 0, 0, 0] ==>
              var found := Scan(file[24..]);
              && (found == [] ==> OpenedLsn(file) == 1)
              && ((exists i :: 0 <= i < |found| && found[i].lsn == 0xFFFF_FFFF_FFFF_FFFF) ==> OpenedLsn(file) == 0)
              && (found != [] && (forall i :: 0 <= i < |found| ==> found[i].lsn != 0xFFFF_FFFF_FFFF_FFFF) ==>
                    && (exists i :: 0 <= i < |found| && OpenedLsn(file) == found[i].lsn + 1)
                    && (forall i :: 0 <= i < |found| ==> found[i].lsn < OpenedLsn(file)))
  {
    hide HeaderOk, Scan, NextLsn;
    HeaderLayout(Header(0, 0, 0, 0), file);
    if HeaderOk(file) {
      NextLsnExact(Scan(file[HEADER_SIZE..]));
    }
  }

  lemma NumberedPrefix(records: seq<LogRecord>, next: U64, k: nat)
    requires Numbered(records, next) && k <= |records|
    ensures Numbered(records[..k], RANGE_64 - 1)
  {
    hide Loggable;
  }

  /** A log as it is written is one that can be opened, and so is one cut between two records. */
  lemma CutBetweenRecords(creationTime: U64, lastCheckpoint: U64, records: seq<LogRecord>, next: U64, k: nat)
    requires Numbered(records, next) && k <= |records|
    ensures IsLog(HeaderBytes(creationTime, lastCheckpoint) + LogBytes(records[..k]), records[..k])
    ensures LogBytes(records[..k]) <= LogBytes(records)
  {
    hide HeaderBytes, HeaderOk, LogBytes, Numbered;
    NewHeaderOk(creationTime, lastCheckpoint, LogBytes(records[..k]));
    NumberedPrefix(records, next, k);
    assert records == records[..k] + records[k..];
    LogConcat(records[..k], records[k..]);
  }

  lemma {:induction false} HandOverWhole(records: seq<LogRecord>, accepts: LogRecord -> bool)
    requires !HandOver(records, accepts).refused
    ensures HandOver(records, accepts).handed == records
  {
    if records != [] {
      HandOverWhole(records[1..], accepts);
    }
  }

  /** What recovery does with a log that holds whole records only. */
  lemma RecoveredLog(file: seq<Byte>, creationTime: U64, lastCheckpoint: U64, records: seq<LogRecord>, next: U64,
                     accepts: LogRecord -> bool)
    ensures file == HeaderBytes(creationTime, lastCheckpoint) + LogBytes(records) && Numbered(records, next) ==>
              && |file| >= HEADER_SIZE
              && Replay(file[HEADER_SIZE..], accepts) == HandOver(AllAsRead(records), accepts)
              && (!HandOver(AllAsRead(records), accepts).refused ==>
                    Numbered(records, NextLsn(HandOver(AllAsRead(records), accepts).handed)))
  {
    hide HeaderBytes, HeaderOk, LogBytes, Loggable, Replay, Scan, HandOver, NextLsn, AllAsRead;
    if file == HeaderBytes(creationTime, lastCheckpoint) + LogBytes(records) && Numbered(records, next) {
      assert records[..|records|] == records;
      CutBetweenRecords(creationTime, lastCheckpoint, records, next, |records|);
      WholeLog(file, records, accepts);
      if !HandOver(AllAsRead(records), accepts).refused {
        HandOverWhole(AllAsRead(records), accepts);
      }
    }
  }

  /** The file after bytes have been written at a place within it, over what was there. */
  function Overwritten(file: seq<Byte>, at: nat, bytes: seq<Byte>): (r: seq<Byte>)
    requires at <= |file|
    ensures |r| >= |file| && |r| >= at + |bytes|
  {
    file[..at] + bytes + if at + |bytes| < |file| then file[at + |bytes|..] else []
  }

  /** Written bytes stand where they were written, and all others stay. */
  lemma OverwrittenExact(file: seq<Byte>, at: nat, bytes: seq<Byte>)
    requires at <= |file|
    ensures var r := Overwritten(file, at, bytes);
            && |r| == (if at + |bytes| < |file| then |file| else at + |bytes|)
            && r[..at] == file[..at] && r[at..at + |bytes|] == bytes
            && (forall i :: at + |bytes| <= i < |file| ==> r[i] == file[i])
  {
  }

  lemma OverwrittenAtEnd(file: seq<Byte>, bytes: seq<Byte>)
    ensures Overwritten(file, |file|, bytes) == file + bytes
  {
  }

  lemma OverwrittenKeeps(file: seq<Byte>, at: nat, bytes: seq<Byte>, n: nat)
    requires n <= at <= |file|
    ensures Overwritten(file, at, bytes)[..n] == file[..n]
  {
  }

  lemma OverwrittenAtStart(file: seq<Byte>, bytes: seq<Byte>)
    requires |bytes| <= |file|
    ensures Overwritten(file, 0, bytes) == bytes + file[|bytes|..]
  {
    assert |bytes| == |file| ==> file[|bytes|..] == [];
  }

  datatype WalError = StreamFailed

  class WalManager {
    var file: seq<Byte>
    var header: Header
    /** Where the stream writes next; it writes nothing once it has failed. */
    var position: nat
    var failed: bool
    var currentLsn: U64
    /** The records written, as far as the file holds nothing else. */
    ghost var records: seq<LogRecord>

    /** What holds of every manager: unless the stream has failed, the header is on file and writing goes on behind it. */
    ghost predicate Ready()
      reads this
    {
      !failed ==> HEADER_SIZE <= position <= |file| && file[..HEADER_SIZE] == PrintedHeader(header)
    }

    /** The file holds exactly the records logged so far, whose LSNs are below the next one. */
    ghost predicate Valid()
      reads this
    {
      && !failed && position == |file| && header.magic == MAGIC && header.version == 1
      && file == PrintedHeader(header) + LogBytes(records) && Numbered(records, currentLsn)
    }

    constructor Create(now: U64)
      ensures Valid() && Ready() && records == [] && currentLsn == 1 && header == Header(0xdeadbeef, 1, now, 0)
    {
      var h := Header(MAGIC, 1, now, 0);
      file, header, position, failed, currentLsn, records := PrintedHeader(h), h, HEADER_SIZE, false, 1, [];
    }

    /**
     * Opening a log that is there. A file shorter than a header leaves the stream failed; after a wrong magic
     * number or version writing goes on behind the header, over what is there. If the file holds whole records
     * and nothing else, the manager goes on from them.
     */
    constructor Open(existing: seq<Byte>, ghost before: seq<LogRecord>)
      ensures file == existing && Ready() && currentLsn == OpenedLsn(existing)
      ensures failed <==> |existing| < HEADER_SIZE
      ensures !failed ==> header == ReadHeader(existing)
                          && position == if HeaderOk(existing) then |existing| else HEADER_SIZE
      ensures IsLog(existing, before) ==> Valid() && records == before
    {
      hide Numbered, PrintedHeader, Scan, NextLsn, IsLog, LogBytes, Read32, Read64;
      OpenedLog(existing, before);
      var found, at, next: U64 := Header(MAGIC, 1, 0, 0), 0, 1;
      if |existing| >= HEADER_SIZE {
        found, at := ReadHeader(existing), HEADER_SIZE;
        if found.magic == MAGIC && found.version == 1 {
          next := ScanAll(existing[HEADER_SIZE..]);
          at := |existing|;
        }
      }
      file, header, position, failed, currentLsn, records := existing, found, at, |existing| < HEADER_SIZE, next, before;
    }

    static method ScanAll(data0: seq<Byte>) returns (next: U64)
      ensures next == NextLsn(Scan(data0))
    {
      hide ParseRecord;
      var data := data0;
      var maxLsn: U64 := 0;
      ghost var seen: seq<LogRecord> := [];
      EmptyIsShort();
      while data != []
        invariant Scan(data0) == seen + Scan(data) && maxLsn == MaxLsn(seen)
        decreases |data|
      {
        ParseShrinks(data);
        var result := ReadRecord(data);
        match result {
          case Read(r, rest) =>
            assert (seen + [r])[..|seen|] == seen;
            assert seen + Scan(data) == (seen + [r]) + Scan(rest);
            maxLsn := if maxLsn < r.lsn then r.lsn else maxLsn;
            seen := seen + [r];
            data := rest;
          case _ =>
            data := [];
        }
      }
      assert seen + [] == seen;
      next := if maxLsn == RANGE_64 - 1 then 0 else maxLsn + 1;
    }

    /** The record has been written where the stream was, and nothing else; or the stream had failed. */
    twostate predicate Logged(r: LogRecord, new result: Result<U64, WalError>)
      requires old(Ready())
      reads this
    {
      && failed == old(failed) && currentLsn == (old(currentLsn) + 1) % 0x1_0000_0000_0000_0000
      && result == (if failed then Err(StreamFailed) else Ok(old(currentLsn)))
      && position == old(position) + (if failed then 0 else |RecordBytes(r)|)
      && records == old(records) + (if failed then [] else [r])
    }

    /** Appends a record with the next LSN, which is used up even if the stream has failed. */
    method Append(tx: U64, kind: Byte, timestamp: U64, dataSize: U32, data: Payload) returns (result: Result<U64, WalError>)
      requires Ready()
      modifies this`file, this`position, this`currentLsn, this`records
      ensures failed == old(failed) && currentLsn == (old(currentLsn) + 1) % 0x1_0000_0000_0000_0000
      ensures result == if failed then Err(StreamFailed) else Ok(old(currentLsn))
      ensures var r := LogRecord(old(currentLsn), tx, kind, timestamp, dataSize, data);
              && Ready() && Logged(r, result)
              && file == (if failed then old(file) else Overwritten(old(file), old(position), RecordBytes(r)))
              && (old(Valid()) && Loggable(r) && r.lsn < RANGE_64 - 1 ==> Valid())
    {
      hide RecordBytes, PrintedHeader, Loggable;
      var lsn := currentLsn;
      currentLsn := (currentLsn + 1) % 0x1_0000_0000_0000_0000;
      if failed {
        return Err(StreamFailed);
      }
      var r := LogRecord(lsn, tx, kind, timestamp, dataSize, data);
      LogConcat(records, [r]);
      assert LogBytes([r]) == RecordBytes(r) + LogBytes([]) == RecordBytes(r);
      OverwrittenAtEnd(file, RecordBytes(r));
      OverwrittenKeeps(file, position, RecordBytes(r), HEADER_SIZE);
      file := Overwritten(file, position, RecordBytes(r));
      position := position + |RecordBytes(r)|;
      records := records + [r];
      return Ok(lsn);
    }

    method LogTransaction(tx: U64, kind: Byte, now: U64) returns (result: Result<U64, WalError>)
      requires Ready() && (kind == BEGIN_TRANSACTION || kind == COMMIT_TRANSACTION || kind == ABORT_TRANSACTION)
      modifies this`file, this`position, this`currentLsn, this`records
      ensures var r := LogRecord(old(currentLsn), tx, kind, now, 0, Nothing);
              && Ready() && Logged(r, result)
              && file == (if failed then old(file) else Overwritten(old(file), old(position), RecordBytes(r)))
              && (old(Valid()) && r.lsn < RANGE_64 - 1 ==> Valid())
    {
      result := Append(tx, kind, now, 0, Nothing);
    }

    method LogNode(tx: U64, kind: Byte, node: U64, properties: seq<Property>, now: U64) returns (result: Result<U64, WalError>)
      requires Ready() && (kind == CREATE_NODE || kind == UPDATE_NODE)
      modifies this`file, this`position, this`currentLsn, this`records
      ensures var size := EstimatedSize(properties) % 0x1_0000_0000;
              var r := LogRecord(old(currentLsn), tx, kind, now, size, NodeData(node, properties));
              && Ready() && Logged(r, result)
              && file == (if failed then old(file) else Overwritten(old(file), old(position), RecordBytes(r)))
              && (old(Valid()) && Loggable(r) && r.lsn < RANGE_64 - 1 ==> Valid())
    {
      result := Append(tx, kind, now, EstimatedSize(properties) % 0x1_0000_0000, NodeData(node, properties));
    }

    /** A checkpoint record, and its LSN in the header. */
    method Checkpoint(now: U64) returns (result: Result<U64, WalError>)
      requires Ready()
      modifies this`file, this`position, this`currentLsn, this`records, this`header
      ensures var r := LogRecord(old(currentLsn), 0, CHECKPOINT, now, 8, CheckpointAt(old(currentLsn)));
              && Ready() && Logged(r, result)
              && header == (if failed then old(header) else old(header).(lastCheckpoint := old(currentLsn)))
              && file == (if failed then old(file)
                          else PrintedHeader(header) + Overwritten(old(file), old(position), RecordBytes(r))[HEADER_SIZE..])
              && (old(Valid()) && r.lsn < RANGE_64 - 1 ==> Valid())
    {
      hide RecordBytes, PrintedHeader, LogBytes, Numbered;
      result := Append(0, CHECKPOINT, now, 8, CheckpointAt(currentLsn));
      if result.Ok? {
        header := header.(lastCheckpoint := result.value);
        OverwrittenAtStart(file, PrintedHeader(header));
        file := Overwritten(file, 0, PrintedHeader(header));
      }
    }

    /** `recover_from_log`: the counter moves only if the callback refuses nothing. */
    method RecoverFromLog(accepts: LogRecord -> bool) returns (handed: seq<LogRecord>, ok: bool)
      modifies this`currentLsn
      ensures Outcome(handed, !ok) == Replay(if |file| >= HEADER_SIZE then file[HEADER_SIZE..] else [], accepts)
      ensures currentLsn == if ok then NextLsn(handed) else old(currentLsn)
      ensures ok && handed == [] ==> currentLsn == 1
      ensures ok && (exists i :: 0 <= i < |handed| && handed[i].lsn == 0xFFFF_FFFF_FFFF_FFFF) ==> currentLsn == 0
      ensures ok && handed != [] && (forall i :: 0 <= i < |handed| ==> handed[i].lsn != 0xFFFF_FFFF_FFFF_FFFF) ==>
                && (exists i :: 0 <= i < |handed| && currentLsn == handed[i].lsn + 1)
                && (forall i :: 0 <= i < |handed| ==> handed[i].lsn < currentLsn)
      ensures old(Valid()) ==> Valid() && Outcome(handed, !ok) == HandOver(AllAsRead(records), accepts)
    {
      hide Numbered, PrintedHeader, LogBytes, HandOver, Replay, NextLsn;
      RecoveredLog(file, header.creationTime, header.lastCheckpoint, records, currentLsn, accepts);
      var next;
      handed, ok, next := HandOverAllRead(if |file| >= HEADER_SIZE then file[HEADER_SIZE..] else [], accepts);
      if ok {
        NextLsnExact(handed);
        currentLsn := next;
      }
    }

    /** The loop of recovery, which also keeps the largest LSN. */
    static method HandOverAllRead(data0: seq<Byte>, accepts: LogRecord -> bool)
      returns (handed: seq<LogRecord>, ok: bool, next: U64)
      ensures Outcome(handed, !ok) == Replay(data0, accepts) && next == NextLsn(handed)
    {
      hide ParseRecord;
      var data := data0;
      var maxLsn: U64 := 0;
      var good := true;
      handed, ok := [], true;
      ghost var all := Replay(data, accepts);
      while good
        invariant good ==> all.handed == handed + Replay(data, accepts).handed && all.refused == Replay(data, accepts).refused
        invariant good ==> ok
        invariant !good ==> all == Outcome(handed, !ok)
        invariant maxLsn == MaxLsn(handed)
        decreases good, |data|
      {
        ParseShrinks(data);
        ghost var before := handed;
        var result := ReadRecord(data);
        match result {
          case Short =>
            assert handed + [] == handed;
            good := false;
          case Unknown(rest) => data := rest;
          case Read(r, rest) =>
            maxLsn := if maxLsn < r.lsn then r.lsn else maxLsn;
            handed := handed + [r];
            assert handed[..|before|] == before;
            if !accepts(r) {
              good, ok := false, false;
            } else {
              ReplayRead(data, accepts, before, r, rest);
              data := rest;
            }
        }
      }
      next := if maxLsn == RANGE_64 - 1 then 0 else maxLsn + 1;
    }
  }

  /** The size estimate stored with a node record; readers do not use it. */
  function EstimatedSize(properties: seq<Property>): nat {
    if properties == [] then 8 else |properties[0].key| + 4 + 4 + 64 + EstimatedSize(properties[1..])
  }

  /** The estimate: eight bytes, and for each property its key and seventy-two bytes. */
  lemma {:induction false} EstimatedSizeExact(properties: seq<Property>, p: Property)
    ensures EstimatedSize([]) == 8
    ensures EstimatedSize(properties + [p]) == EstimatedSize(properties) + |p.key| + 72
  {
    if properties == [] {
      assert properties + [p] == [p];
    } else {
      EstimatedSizeExact(properties[1..], p);
      assert (properties + [p])[1..] == properties[1..] + [p];
    }
  }

  /** A log with the LSNs 1, 2, 3, ... cut after k whole records, somewhere in the next: opening goes on with k + 1. */
  lemma ConsecutiveGoesOn(creationTime: U64, lastCheckpoint: U64, records: seq<LogRecord>, n: nat, k: nat)
    requires AllLoggable(records) && WholeRecords(records, n, k) && |records| < 0xFFFF_FFFF_FFFF_FFFF
    requires forall i :: 0 <= i < |records| ==> records[i].lsn == i + 1
    ensures k <= |records| && n <= |LogBytes(records)|
    ensures OpenedLsn((HeaderBytes(creationTime, lastCheckpoint) + LogBytes(records))[..24 + n]) == k + 1
  {
    hide HeaderBytes, HeaderOk, LogBytes, WholeRecords, Loggable, AsRead, AllAsRead, Scan, Replay, HandOver, NextLsn;
    WholeFits(records, n, k);
    CutFile(creationTime, lastCheckpoint, records, n, k, AcceptAll);
    SameLsns(records[..k]);
    assert |AllAsRead(records[..k])| == k by { CountAsRead(records[..k]); }
    NextAfterConsecutive(AllAsRead(records[..k]));
  }

  lemma CountAsRead(records: seq<LogRecord>)
    ensures |AllAsRead(records)| == |records|
  {
  }

  /** A log file cut at any byte after its header: what the next start finds in it. */
  lemma CutFile(creationTime: U64, lastCheckpoint: U64, records: seq<LogRecord>, n: nat, k: nat,
                accepts: LogRecord -> bool)
    requires AllLoggable(records) && WholeRecords(records, n, k)
    requires forall i :: 0 <= i < |records| ==> records[i].lsn < RANGE_64 - 1
    ensures k <= |records| && n <= |LogBytes(records)|
    ensures var cut := (HeaderBytes(creationTime, lastCheckpoint) + LogBytes(records))[..HEADER_SIZE + n];
            && HeaderOk(cut) && Scan(cut[HEADER_SIZE..]) == AllAsRead(records[..k])
            && Replay(cut[HEADER_SIZE..], accepts) == HandOver(AllAsRead(records[..k]), accepts)
    ensures forall i :: 0 <= i < k ==> records[i].lsn < NextLsn(AllAsRead(records[..k]))
  {
    hide HeaderBytes, HeaderOk, LogBytes, WholeRecords, Loggable, AsRead, AllAsRead, Scan, Replay, HandOver, NextLsn;
    var header := HeaderBytes(creationTime, lastCheckpoint);
    WholeFits(records, n, k);
    CutAfterHeader(header, LogBytes(records), n);
    NewHeaderOk(creationTime, lastCheckpoint, LogBytes(records)[..n]);
    ReplayOfCutLog(records, n, k, accepts);
    NextLsnAfterCut(records, k);
  }

  lemma CutAfterHeader(header: seq<Byte>, log: seq<Byte>, n: nat)
    requires |header| == HEADER_SIZE && n <= |log|
    ensures (header + log)[..HEADER_SIZE + n] == header + log[..n]
    ensures (header + log[..n])[HEADER_SIZE..] == log[..n]
  {
  }

  lemma NextLsnAfterCut(records: seq<LogRecord>, k: nat)
    requires k <= |records| && forall i :: 0 <= i < |records| ==> records[i].lsn < RANGE_64 - 1
    ensures forall i :: 0 <= i < k ==> records[i].lsn < NextLsn(AllAsRead(records[..k]))
  {
    SameLsns(records[..k]);
    NextLsnIsNewIff(AllAsRead(records[..k]));
    assert forall i :: 0 <= i < k ==> records[i].lsn == AllAsRead(records[..k])[i].lsn;
  }

  lemma WholeFits(records: seq<LogRecord>, n: nat, k: nat)
    requires WholeRecords(records, n, k)
    ensures n <= |LogBytes(records)| && k <= |records|
  {
  }

  lemma SameLsns(records: seq<LogRecord>)
    ensures forall i :: 0 <= i < |records| ==> AllAsRead(records)[i].lsn == records[i].lsn
  {
  }

  // ----- Where writer and reader part ways -----

  /** After a DELETE_NODE record the reader leaves four bytes behind, and takes them for the next record. */
  lemma DeleteNodeLeavesBytes(lsn: U64, tx: U64, timestamp: U64, node: U64, rest: seq<Byte>)
    ensures var r := LogRecord(lsn, tx, DELETE_NODE, timestamp, 8, NodeData(node, []));
            ParseRecord(RecordBytes(r) + rest) == Read(r, LittleEndian(0, 4) + rest)
  {
    hide LittleEndian, Read32, Read64;
    var r := LogRecord(lsn, tx, DELETE_NODE, timestamp, 8, NodeData(node, []));
    var zero := LittleEndian(0, 4) + rest;
    var tail := LittleEndian(node, 8) + zero;
    assert PayloadBytes(r.data) == LittleEndian(node, 8) + (LittleEndian(0, 4) + []);
    assert RecordBytes(r) + rest == FixedBytes(r) + tail;
    FixedRoundTrip(r, tail);
    Read64RoundTrip(node, zero);
  }

  lemma {:induction false} TopByteOfSmall(n: nat, k: nat)
    requires k > 0 && n < Range(k - 1)
    ensures LittleEndian(n, k)[k - 1] == 0
    decreases k
  {
    if k > 1 {
      TopByteOfSmall(n / 0x100, k - 1);
      assert LittleEndian(n, k) == [n % 0x100] + LittleEndian(n / 0x100, k - 1);
    }
  }

  // ----- Appending after a restart -----

  predicate AcceptAll(r: LogRecord) {
    true
  }

  /** What is appended to a log cut between two records is recovered behind the records before the cut. */
  lemma AppendAtBoundary(records: seq<LogRecord>, k: nat, more: seq<LogRecord>, accepts: LogRecord -> bool)
    requires AllLoggable(records) && k <= |records| && AllLoggable(more)
    ensures Replay(LogBytes(records[..k]) + LogBytes(more), accepts) == HandOver(AllAsRead(records[..k] + more), accepts)
  {
    hide LogBytes, Replay, HandOver, AllAsRead, Loggable;
    var all := records[..k] + more;
    var n := |LogBytes(all)|;
    LogConcat(records[..k], more);
    assert all[..|all|] == all && LogBytes(all)[..n] == LogBytes(all);
    ReplayOfCutLog(all, n, |all|, accepts);
  }

  /** Whole records in front are handed over whatever follows them. */
  lemma {:induction false} ReplayAfter(records: seq<LogRecord>, rest: seq<Byte>)
    requires AllLoggable(records)
    ensures Replay(LogBytes(records) + rest, AcceptAll).handed == AllAsRead(records) + Replay(rest, AcceptAll).handed
  {
    hide ParseRecord, RecordBytes, AsRead, Loggable, LogBytes, Replay;
    if records == [] {
      LogOfNone();
      assert [] + rest == rest;
    } else {
      var r, later := records[0], records[1..];
      var data := LogBytes(later) + rest;
      LogOfCons(r, later);
      assert [r] + later == records;
      assert LogBytes(records) + rest == RecordBytes(r) + data;
      RecordRoundTrip(r, data);
      ReplayRead(RecordBytes(r) + data, AcceptAll, [], AsRead(r), data);
      ReplayAfter(later, rest);
      assert AllAsRead(records) == [AsRead(r)] + AllAsRead(later);
      var after := Replay(data, AcceptAll).handed;
      assert [] + Replay(RecordBytes(r) + data, AcceptAll).handed == Replay(RecordBytes(r) + data, AcceptAll).handed;
      assert [] + [AsRead(r)] + after == [AsRead(r)] + after;
      assert [AsRead(r)] + (AllAsRead(later) + Replay(rest, AcceptAll).handed) == AllAsRead(records) + Replay(rest, AcceptAll).handed;
    }
  }

  lemma ScanOne(data: seq<Byte>, r: LogRecord, rest: seq<Byte>)
    requires ParseRecord(data) == Read(r, rest)
    ensures Scan(data) == [r] + Scan(rest)
  {
    hide ParseRecord;
  }

  lemma {:induction false} ScanAfter(records: seq<LogRecord>, rest: seq<Byte>)
    requires AllLoggable(records)
    ensures Scan(LogBytes(records) + rest) == AllAsRead(records) + Scan(rest)
  {
    hide ParseRecord, RecordBytes, AsRead, Loggable, LogBytes, Scan;
    if records == [] {
      LogOfNone();
      assert [] + rest == rest;
    } else {
      var r, later := records[0], records[1..];
      var data := LogBytes(later) + rest;
      LogOfCons(r, later);
      assert [r] + later == records;
      assert LogBytes(records) + rest == RecordBytes(r) + data;
      RecordRoundTrip(r, data);
      ScanOne(RecordBytes(r) + data, AsRead(r), data);
      ScanAfter(later, rest);
      assert AllAsRead(records) == [AsRead(r)] + AllAsRead(later);
    }
  }

  /** At 29 bytes of an unknown type the scan of opening stops, and recovery goes on behind them. */
  lemma UnknownStopsScanOnly(records: seq<LogRecord>, junk: seq<Byte>, more: seq<LogRecord>)
    requires AllLoggable(records) && AllLoggable(more) && |junk| == 29 && junk[16] !in {1, 2, 3, 4, 5, 6, 10}
    ensures var data := LogBytes(records) + (junk + LogBytes(more));
            Scan(data) == AllAsRead(records) && Replay(data, AcceptAll).handed == AllAsRead(records) + AllAsRead(more)
  {
    hide RecordBytes, AsRead, Loggable, LogBytes, AllAsRead;
    var rest := junk + LogBytes(more);
    assert ParseRecord(rest) == Unknown(LogBytes(more));
    ScanAfter(records, rest);
    assert AllAsRead(records) + [] == AllAsRead(records);
    ReplayAfter(records, rest);
    ReplayAfter(more, []);
    assert LogBytes(more) + [] == LogBytes(more);
    assert Replay([], AcceptAll).handed == [];
    assert AllAsRead(more) + [] == AllAsRead(more);
  }

  /** The fixed part of a record read is in the bytes it was read from. */
  lemma FixedBack(data: seq<Byte>)
    requires ParseRecord(data).Read?
    ensures |data| >= FIXED_SIZE && data[..FIXED_SIZE] == FixedBytes(ParseRecord(data).record)
  {
    hide LittleEndian, FromLittleEndian, ParsePayload;
    LittleEndianBack(data[..8]);
    LittleEndianBack(data[8..16]);
    LittleEndianBack(data[17..25]);
    LittleEndianBack(data[25..29]);
    assert data[8..][..8] == data[8..16] && data[17..][..8] == data[17..25] && data[25..][..4] == data[25..29];
    assert data[..29] == data[..8] + (data[8..16] + ([data[16]] + (data[17..25] + data[25..29])));
  }

  /** A begin record with the given LSN whose bytes are unlike those of `c`. */
  function UnlikeRecord(lsn: U64, c: LogRecord): LogRecord {
    Ranges();
    FromLittleEndianBound([1, 1, 1, 1, 1, 1, 1, 1]);
    LogRecord(lsn, if c.tx % 0x100 == 1 then 2 else 1, BEGIN_TRANSACTION, FromLittleEndian([1, 1, 1, 1, 1, 1, 1, 1]), 0, Nothing)
  }

  lemma FiveParts(a: seq<Byte>, b: seq<Byte>, c: Byte, d: seq<Byte>, e: seq<Byte>)
    requires |a| == |b| == |d| == 8 && |e| == 4
    ensures var all := a + (b + ([c] + (d + e)));
            |all| == FIXED_SIZE && all[8] == b[0] && all[16] == c && all[17..25] == d && all[25..29] == e
  {
  }

  lemma FixedAt(r: LogRecord)
    ensures FixedBytes(r)[8] == r.tx % 0x100 && FixedBytes(r)[16] == r.kind
    ensures FixedBytes(r)[17..25] == LittleEndian(r.timestamp, 8) && FixedBytes(r)[25..29] == LittleEndian(r.dataSize, 4)
  {
    FirstByte(r.tx, 8);
    hide LittleEndian;
    FiveParts(LittleEndian(r.lsn, 8), LittleEndian(r.tx, 8), r.kind, LittleEndian(r.timestamp, 8), LittleEndian(r.dataSize, 4));
  }

  lemma FirstByte(n: nat, k: nat)
    requires k > 0
    ensures LittleEndian(n, k)[0] == n % 0x100
  {
  }

  lemma UnlikeBytes(lsn: U64, c: LogRecord)
    ensures var bytes := FixedBytes(UnlikeRecord(lsn, c));
            && bytes[8] != FixedBytes(c)[8]
            && (forall i :: 17 <= i < 25 ==> bytes[i] == 1) && (forall i :: 25 <= i < 29 ==> bytes[i] == 0)
  {
    hide FixedBytes;
    var r := UnlikeRecord(lsn, c);
    var ones: seq<Byte> := [1, 1, 1, 1, 1, 1, 1, 1];
    FixedAt(r);
    FixedAt(c);
    LittleEndianBack(ones);
    var bytes := FixedBytes(r);
    forall i | 17 <= i < 25 ensures bytes[i] == 1 {
      assert bytes[i] == bytes[17..25][i - 17] == ones[i - 17];
    }
    var zeros: seq<Byte> := [0, 0, 0, 0];
    assert FromLittleEndian(zeros) == 0;
    LittleEndianBack(zeros);
    forall i | 25 <= i < 29 ensures bytes[i] == 0 {
      assert bytes[i] == bytes[25..29][i - 25] == zeros[i - 25];
    }
  }

  /** Bytes of a cut record in front of the bytes of an unlike one never read as that one. */
  lemma StrayNotRead(c: LogRecord, m: nat, lsn: U64)
    requires 0 < m < |RecordBytes(c)|
    ensures ParseRecord(RecordBytes(c)[..m] + RecordBytes(UnlikeRecord(lsn, c))).Read? ==>
              ParseRecord(RecordBytes(c)[..m] + RecordBytes(UnlikeRecord(lsn, c))).record != UnlikeRecord(lsn, c)
  {
    hide FixedBytes, ParseRecord, UnlikeRecord;
    var r := UnlikeRecord(lsn, c);
    var stray, w := RecordBytes(c)[..m], FixedBytes(r);
    var data := stray + RecordBytes(r);
    if ParseRecord(data).Read? && ParseRecord(data).record == r {
      FixedBack(data);
      UnlikeBytes(lsn, c);
      StrayMismatch(FixedBytes(c), PayloadBytes(c.data), w, PayloadBytes(r.data), m);
    }
  }

  lemma StrayMismatch(c: seq<Byte>, tail: seq<Byte>, w: seq<Byte>, rest: seq<Byte>, m: nat)
    requires |c| == |w| == FIXED_SIZE && 0 < m < |c + tail| && w[8] != c[8]
    requires (forall i :: 17 <= i < 25 ==> w[i] == 1) && (forall i :: 25 <= i < 29 ==> w[i] == 0)
    ensures |(c + tail)[..m] + (w + rest)| >= FIXED_SIZE && ((c + tail)[..m] + (w + rest))[..FIXED_SIZE] != w
  {
    var stray := (c + tail)[..m];
    var data := stray + (w + rest);
    var i := if m >= 9 then 8 else if m <= 3 then 25 else 28;
    assert data[i] == if i < m then c[i] else w[i - m];
    assert data[..FIXED_SIZE][i] == data[i] != w[i];
  }

  /** Passing over an unknown type leaves too little for a record. */
  lemma StraySkipped(c: LogRecord, m: nat, lsn: U64)
    requires Loggable(c) && 0 < m < |RecordBytes(c)|
    ensures var attempt := ParseRecord(RecordBytes(c)[..m] + RecordBytes(UnlikeRecord(lsn, c)));
            attempt.Unknown? ==> |attempt.rest| < FIXED_SIZE
  {
    hide FixedBytes, ParsePayload;
    var stray, w := RecordBytes(c)[..m], RecordBytes(UnlikeRecord(lsn, c));
    assert |w| == FIXED_SIZE;
    FixedAt(c);
    if m > 16 {
      assert (stray + w)[16] == stray[16] == RecordBytes(c)[16] == FixedBytes(c)[16] == c.kind;
    }
  }

  lemma UnlikeIsLoggable(lsn: U64, c: LogRecord)
    ensures Loggable(UnlikeRecord(lsn, c)) && AsRead(UnlikeRecord(lsn, c)) == UnlikeRecord(lsn, c)
    ensures UnlikeRecord(lsn, c).lsn == lsn
  {
  }

  lemma TooShort(data: seq<Byte>)
    requires |data| < FIXED_SIZE
    ensures ParseRecord(data) == Short
  {
  }

  /** So a record appended behind the remains of a cut one, whatever its LSN, may be lost. */
  lemma StrayHides(c: LogRecord, m: nat, lsn: U64)
    requires Loggable(c) && 0 < m < |RecordBytes(c)|
    ensures Replay(RecordBytes(c)[..m] + RecordBytes(UnlikeRecord(lsn, c)), AcceptAll).handed != [UnlikeRecord(lsn, c)]
  {
    hide UnlikeRecord, RecordBytes, ParseRecord;
    var data := RecordBytes(c)[..m] + RecordBytes(UnlikeRecord(lsn, c));
    StrayNotRead(c, m, lsn);
    StraySkipped(c, m, lsn);
    ParseShrinks(data);
    if ParseRecord(data).Unknown? {
      TooShort(ParseRecord(data).rest);
      assert Replay(ParseRecord(data).rest, AcceptAll).handed == [];
    } else if ParseRecord(data).Read? {
      assert Replay(data, AcceptAll).handed[0] == ParseRecord(data).record;
    }
  }

  /** Records with consecutive LSNs from the given one on. */
  ghost predicate GoOn(records: seq<LogRecord>, lsn: nat) {
    forall i :: 0 <= i < |records| ==> records[i].lsn == lsn + i
  }

  /** Whatever is appended after a restart, with the LSNs handed out from then on, is recovered. */
  ghost predicate AppendedAreRecovered(records: seq<LogRecord>, n: nat, k: nat)
    requires k <= |records| && n <= |LogBytes(records)|
  {
    forall more :: AllLoggable(more) && GoOn(more, NextLsn(AllAsRead(records[..k]))) ==>
      Replay(LogBytes(records)[..n] + LogBytes(more), AcceptAll) == Outcome(AllAsRead(records[..k] + more), false)
  }

  /** Everything appended after a restart is recovered, exactly when the log was cut between two records. */
  lemma AppendedAreRecoveredIff(records: seq<LogRecord>, n: nat, k: nat)
    requires AllLoggable(records) && WholeRecords(records, n, k)
    ensures k <= |records| && n <= |LogBytes(records)|
    ensures AppendedAreRecovered(records, n, k) <==> n == |LogBytes(records[..k])|
  {
    WholeFits(records, n, k);
    if n == |LogBytes(records[..k])| {
      BoundaryRecovers(records, n, k);
    } else {
      StrayLoses(records, n, k);
    }
  }

  lemma BoundaryRecovers(records: seq<LogRecord>, n: nat, k: nat)
    requires AllLoggable(records) && k <= |records| && n == |LogBytes(records[..k])| && n <= |LogBytes(records)|
    ensures AppendedAreRecovered(records, n, k)
  {
    hide LogBytes, Replay, AllAsRead, Loggable, NextLsn;
    assert records == records[..k] + records[k..];
    LogConcat(records[..k], records[k..]);
    assert LogBytes(records)[..n] == LogBytes(records[..k]);
    forall more | AllLoggable(more)
      ensures Replay(LogBytes(records)[..n] + LogBytes(more), AcceptAll) == Outcome(AllAsRead(records[..k] + more), false)
    {
      AppendAtBoundary(records, k, more, AcceptAll);
      HandOverAll(AllAsRead(records[..k] + more), AcceptAll);
    }
  }

  /** The bytes of a cut log: the whole records, and the beginning of the next one. */
  lemma CutBytes(records: seq<LogRecord>, n: nat, k: nat)
    requires WholeRecords(records, n, k) && k < |records|
    ensures var m := n - |LogBytes(records[..k])|;
            m < |RecordBytes(records[k])| && LogBytes(records)[..n] == LogBytes(records[..k]) + RecordBytes(records[k])[..m]
  {
    hide RecordBytes, LogBytes;
    var c := records[k];
    assert records == records[..k] + ([c] + records[k + 1..]);
    assert records[..k + 1] == records[..k] + [c];
    LogConcat(records[..k], [c] + records[k + 1..]);
    LogConcat(records[..k], [c]);
    LogOfCons(c, records[k + 1..]);
    LogOfCons(c, []);
    LogOfNone();
    assert [c] + [] == [c];
  }

  lemma StrayLoses(records: seq<LogRecord>, n: nat, k: nat)
    requires AllLoggable(records) && WholeRecords(records, n, k)
    requires k <= |records| && n <= |LogBytes(records)| && n != |LogBytes(records[..k])|
    ensures !AppendedAreRecovered(records, n, k)
  {
    hide RecordBytes, LogBytes, Replay, AllAsRead, Loggable, NextLsn, UnlikeRecord;
    NotAllWhole(records, n, k);
    var c, m := records[k], n - |LogBytes(records[..k])|;
    CutBytes(records, n, k);
    var lsn := NextLsn(AllAsRead(records[..k]));
    var r := UnlikeRecord(lsn, c);
    UnlikeIsLoggable(lsn, c);
    StrayHides(c, m, lsn);
    var stray := RecordBytes(c)[..m] + RecordBytes(r);
    ReplayAfter(records[..k], stray);
    assert LogBytes(records)[..n] + LogBytes([r]) == LogBytes(records[..k]) + stray by {
      LogOfCons(r, []);
      LogOfNone();
      assert [r] + [] == [r];
    }
    if AppendedAreRecovered(records, n, k) {
      assert AllLoggable([r]) && GoOn([r], lsn);
      LastAsRead(records[..k], r);
      SamePrefix(AllAsRead(records[..k]), Replay(stray, AcceptAll).handed, [r]);
    }
  }

  lemma NotAllWhole(records: seq<LogRecord>, n: nat, k: nat)
    requires WholeRecords(records, n, k) && n != |LogBytes(records[..k])|
    ensures k < |records| && n > |LogBytes(records[..k])|
  {
    assert records[..|records|] == records;
  }

  lemma LastAsRead(records: seq<LogRecord>, r: LogRecord)
    requires AsRead(r) == r
    ensures AllAsRead(records + [r]) == AllAsRead(records) + [r]
  {
  }

  lemma SamePrefix(a: seq<LogRecord>, b: seq<LogRecord>, c: seq<LogRecord>)
    requires a + b == a + c
    ensures b == c
  {
    assert b == (a + b)[|a|..] == (a + c)[|a|..] == c;
  }

  /** New records go after the bytes a cut has left: one stray byte hides a transaction record. */
  lemma AppendAfterCutIsLost(stray: Byte, r: LogRecord, accepts: LogRecord -> bool)
    requires Loggable(r) && r.data.Nothing? && r.tx < 0x100_0000_0000_0000
    ensures Replay([stray] + RecordBytes(r), accepts) == Outcome([], false)
  {
    hide LittleEndian, Read32, Read64;
    var data := [stray] + RecordBytes(r);
    assert RecordBytes(r) == FixedBytes(r);
    var tail := LittleEndian(r.timestamp, 8) + LittleEndian(r.dataSize, 4);
    assert data == [stray] + (LittleEndian(r.lsn, 8) + (LittleEndian(r.tx, 8) + ([r.kind] + tail)));
    assert Range(7) == 0x100_0000_0000_0000 by { Ranges(); }
    TopByteOfSmall(r.tx, 8);
    assert data[16] == LittleEndian(r.tx, 8)[7];
    assert |data[FIXED_SIZE..]| == 1;
  }
}
