// The byte form of properties, nodes and edges (src/storage/record.cpp:6-242, src/storage/page_store.h:81-110).
module Records {
  import opened Wrappers
  import opened Bytes
  import VarInt

  type Text = s: seq<Byte> | |s| < RANGE_64

  /** A double is eight bytes copied as they are. */
  type Double = s: seq<Byte> | |s| == 8 witness [0, 0, 0, 0, 0, 0, 0, 0]

  datatype Value = String(text: Text) | Integer(n: I64) | Float(bits: Double) | Boolean(b: bool) | Blob(bytes: Text)

  datatype Property = Property(key: Text, value: Value)

  type Properties = s: seq<Property> | |s| < RANGE_64

  datatype NodeRecord = NodeRecord(
    id: U64, labelCount: U32, propertyCount: U32, inDegree: U32, outDegree: U32,
    propertyOffset: U64, inEdgesOffset: U64, outEdgesOffset: U64)

  datatype EdgeRecord = EdgeRecord(
    id: U64, fromNode: U64, toNode: U64, labelId: U32, propertyCount: U32, propertyOffset: U64, timestamp: U64)

  datatype Corruption = BadVarInt(failure: VarInt.Failure) | ShortString | NoType | ShortFloat | ShortBoolean | ShortBytes
                      | UnknownType | ShortRecord

  /** What a reader gives: a value and the bytes it leaves. */
  type Parse<T> = Result<(T, seq<Byte>), Corruption>

  // ----- Little-endian fields -----

  function LittleEndian(n: nat, k: nat): (bytes: seq<Byte>)
    ensures |bytes| == k
    decreases k
  {
    if k == 0 then [] else [n % 0x100] + LittleEndian(n / 0x100, k - 1)
  }

  function FromLittleEndian(bytes: seq<Byte>): nat {
    if bytes == [] then 0 else bytes[0] + 0x100 * FromLittleEndian(bytes[1..])
  }

  function Range(k: nat): nat {
    if k == 0 then 1 else 0x100 * Range(k - 1)
  }

  lemma {:induction false} LittleEndianRoundTrip(n: nat, k: nat)
    requires n < Range(k)
    ensures FromLittleEndian(LittleEndian(n, k)) == n
    decreases k
  {
    if k > 0 {
      LittleEndianRoundTrip(n / 0x100, k - 1);
      assert LittleEndian(n, k)[1..] == LittleEndian(n / 0x100, k - 1);
    }
  }

  /** Reading a field loses nothing. */
  lemma {:induction false} LittleEndianBack(bytes: seq<Byte>)
    ensures LittleEndian(FromLittleEndian(bytes), |bytes|) == bytes
  {
    if bytes != [] {
      var rest := FromLittleEndian(bytes[1..]);
      var n := bytes[0] + 0x100 * rest;
      LittleEndianBack(bytes[1..]);
      assert n % 0x100 == bytes[0] && n / 0x100 == rest;
      assert bytes == [bytes[0]] + bytes[1..];
    }
  }

  lemma {:induction false} FromLittleEndianBound(bytes: seq<Byte>)
    ensures FromLittleEndian(bytes) < Range(|bytes|)
  {
    if bytes != [] {
      FromLittleEndianBound(bytes[1..]);
    }
  }

  lemma Ranges()
    ensures Range(4) == 0x1_0000_0000 && Range(8) == RANGE_64
  {
    assert Range(2) == 0x1_0000 && Range(3) == 0x100_0000;
    assert Range(5) == 0x100_0000_0000 && Range(6) == 0x1_0000_0000_0000 && Range(7) == 0x100_0000_0000_0000;
  }

  function Read32(bytes: seq<Byte>): U32
    requires |bytes| >= 4
  {
    Ranges();
    FromLittleEndianBound(bytes[..4]);
    FromLittleEndian(bytes[..4])
  }

  function Read64(bytes: seq<Byte>): U64
    requires |bytes| >= 8
  {
    Ranges();
    FromLittleEndianBound(bytes[..8]);
    FromLittleEndian(bytes[..8])
  }

  lemma Read32RoundTrip(n: U32, rest: seq<Byte>)
    ensures Read32(LittleEndian(n, 4) + rest) == n && (LittleEndian(n, 4) + rest)[4..] == rest
  {
    Ranges();
    LittleEndianRoundTrip(n, 4);
    assert (LittleEndian(n, 4) + rest)[..4] == LittleEndian(n, 4);
  }

  lemma Read64RoundTrip(n: U64, rest: seq<Byte>)
    ensures Read64(LittleEndian(n, 8) + rest) == n && (LittleEndian(n, 8) + rest)[8..] == rest
  {
    Ranges();
    LittleEndianRoundTrip(n, 8);
    assert (LittleEndian(n, 8) + rest)[..8] == LittleEndian(n, 8);
  }

  // ----- Printing -----

  /** A length or count and the bytes it announces. */
  function TextBytes(text: Text): seq<Byte> {
    VarInt.Encoded(|text|) + text
  }

  function ValueBytes(value: Value): seq<Byte> {
    match value
    case String(text) => [0] + TextBytes(text)
    case Integer(n) => [1] + VarInt.Encoded(VarInt.ZigZagEncode(n))
    case Float(bits) => [2] + bits
    case Boolean(b) => [3] + [if b then 1 else 0]
    case Blob(bytes) => [4] + TextBytes(bytes)
  }

  function PropertyBytes(p: Property): seq<Byte> {
    TextBytes(p.key) + ValueBytes(p.value)
  }

  function ListBytes(properties: seq<Property>): seq<Byte> {
    if properties == [] then [] else PropertyBytes(properties[0]) + ListBytes(properties[1..])
  }

  function PropertiesBytes(properties: Properties): seq<Byte> {
    VarInt.Encoded(|properties|) + ListBytes(properties)
  }

  method WriteVarInt(buffer: seq<Byte>, value: U64) returns (longer: seq<Byte>)
    ensures longer == buffer + VarInt.Encoded(value)
  {
    var temp := new Byte[10];
    VarInt.EncodedAtMostTen(value);
    var len := VarInt.Encode(value, temp);
    assert temp[..len] == VarInt.Encoded(value);
    longer := buffer + temp[..len];
  }

  method WriteString(buffer: seq<Byte>, text: Text) returns (longer: seq<Byte>)
    ensures longer == buffer + TextBytes(text)
  {
    longer := WriteVarInt(buffer, |text|);
    longer := longer + text;
  }

  method WriteValue(buffer: seq<Byte>, value: Value) returns (longer: seq<Byte>)
    ensures longer == buffer + ValueBytes(value)
  {
    match value {
      case String(text) => longer := WriteString(buffer + [0], text);
      case Integer(n) => longer := WriteVarInt(buffer + [1], VarInt.ZigZagEncode(n));
      case Float(bits) => longer := buffer + [2] + bits;
      case Boolean(b) => longer := buffer + [3] + [if b then 1 else 0];
      case Blob(bytes) => longer := WriteString(buffer + [4], bytes);
    }
  }

  method SerializeProperties(properties: Properties) returns (buffer: seq<Byte>)
    ensures buffer == PropertiesBytes(properties)
  {
    hide TextBytes, ValueBytes, VarInt.Encoded;
    buffer := WriteVarInt([], |properties|);
    for i := 0 to |properties|
      invariant buffer + ListBytes(properties[i..]) == PropertiesBytes(properties)
    {
      ghost var before, rest := buffer, properties[i..];
      buffer := WriteString(buffer, properties[i].key);
      buffer := WriteValue(buffer, properties[i].value);
      assert buffer == before + PropertyBytes(rest[0]) && rest[1..] == properties[i + 1..];
      assert before + ListBytes(rest) == buffer + ListBytes(rest[1..]);
    }
    assert buffer + [] == buffer;
  }

  // ----- Parsing -----

  function ParseVarInt(data: seq<Byte>): Parse<U64> {
    match VarInt.Decoded(data)
    case Ok((value, used)) => VarInt.DecodedIff(data, value, used); Ok((value, data[used..]))
    case Err(e) => Err(BadVarInt(e))
  }

  function ParseText(data: seq<Byte>, short: Corruption): Parse<Text> {
    match ParseVarInt(data)
    case Ok((len, rest)) => if |rest| < len then Err(short) else Ok((rest[..len], rest[len..]))
    case Err(e) => Err(e)
  }

  function ParseValue(data: seq<Byte>, kind: Byte): Parse<Value> {
    match kind
    case 0 => (match ParseText(data, ShortString) case Ok((text, rest)) => Ok((String(text), rest)) case Err(e) => Err(e))
    case 1 => (match ParseVarInt(data)
               case Ok((code, rest)) => Ok((Integer(VarInt.ZigZagDecode(code)), rest))
               case Err(e) => Err(e))
    case 2 => if |data| < 8 then Err(ShortFloat) else Ok((Float(data[..8]), data[8..]))
    case 3 => if data == [] then Err(ShortBoolean) else Ok((Boolean(data[0] != 0), data[1..]))
    case 4 => (match ParseText(data, ShortBytes) case Ok((text, rest)) => Ok((Blob(text), rest)) case Err(e) => Err(e))
    case _ => Err(UnknownType)
  }

  function ParseProperty(data: seq<Byte>): Parse<Property> {
    match ParseText(data, ShortString)
    case Err(e) => Err(e)
    case Ok((key, rest)) =>
      if rest == [] then Err(NoType)
      else
        match ParseValue(rest[1..], rest[0])
        case Err(e) => Err(e)
        case Ok((value, after)) => Ok((Property(key, value), after))
  }

  /** The loop from property i of `count` on, with the properties read so far. */
  function ParseList(data: seq<Byte>, i: nat, count: U64, before: seq<Property>): Parse<Properties>
    requires |before| == i <= count
    decreases count - i
  {
    if i == count then Ok((before, data))
    else
      match ParseProperty(data)
      case Err(e) => Err(e)
      case Ok((property, rest)) => ParseList(rest, i + 1, count, before + [property])
  }

  function ParseProperties(data: seq<Byte>): Parse<Properties> {
    match ParseVarInt(data)
    case Err(e) => Err(e)
    case Ok((count, rest)) => ParseList(rest, 0, count, [])
  }

  method ReadVarInt(data: seq<Byte>) returns (result: Parse<U64>)
    ensures result == ParseVarInt(data)
  {
    var value, rest := VarInt.Decode(data);
    match value {
      case Err(e) => return Err(BadVarInt(e));
      case Ok(v) =>
        ghost var used := VarInt.Decoded(data).value.1;
        VarInt.DecodedIff(data, v, used);
        return Ok((v, rest));
    }
  }

  method ReadString(data: seq<Byte>, short: Corruption) returns (result: Parse<Text>)
    ensures result == ParseText(data, short)
  {
    var len := ReadVarInt(data);
    if len.Err? {
      return Err(len.error);
    }
    var (n, rest) := len.value;
    if |rest| < n {
      return Err(short);
    }
    return Ok((rest[..n], rest[n..]));
  }

  method ReadValue(data: seq<Byte>, kind: Byte) returns (result: Parse<Value>)
    ensures result == ParseValue(data, kind)
  {
    if kind == 0 {
      var text := ReadString(data, ShortString);
      return if text.Ok? then Ok((String(text.value.0), text.value.1)) else Err(text.error);
    } else if kind == 1 {
      var code := ReadVarInt(data);
      return if code.Ok? then Ok((Integer(VarInt.ZigZagDecode(code.value.0)), code.value.1)) else Err(code.error);
    } else if kind == 2 {
      return if |data| < 8 then Err(ShortFloat) else Ok((Float(data[..8]), data[8..]));
    } else if kind == 3 {
      return if data == [] then Err(ShortBoolean) else Ok((Boolean(data[0] != 0), data[1..]));
    } else if kind == 4 {
      var text := ReadString(data, ShortBytes);
      return if text.Ok? then Ok((Blob(text.value.0), text.value.1)) else Err(text.error);
    } else {
      return Err(UnknownType);
    }
  }

  method DeserializeProperties(data0: seq<Byte>) returns (result: Result<Properties, Corruption>)
    ensures result == match ParseProperties(data0) case Ok((properties, _)) => Ok(properties) case Err(e) => Err(e)
  {
    var header := ReadVarInt(data0);
    if header.Err? {
      return Err(header.error);
    }
    var (count, data) := header.value;
    var properties: seq<Property> := [];
    for i := 0 to count
      invariant |properties| == i
      invariant ParseProperties(data0) == ParseList(data, i, count, properties)
    {
      var key := ReadString(data, ShortString);
      if key.Err? {
        return Err(key.error);
      }
      if key.value.1 == [] {
        return Err(NoType);
      }
      var value := ReadValue(key.value.1[1..], key.value.1[0]);
      if value.Err? {
        return Err(value.error);
      }
      properties := properties + [Property(key.value.0, value.value.0)];
      data := value.value.1;
    }
    return Ok(properties);
  }

  // ----- Node and edge records -----

  function NodeHeader(r: NodeRecord): (bytes: seq<Byte>)
    ensures |bytes| == 48
  {
    LittleEndian(r.id, 8) + (LittleEndian(r.labelCount, 4) + (LittleEndian(r.propertyCount, 4) + (LittleEndian(r.inDegree, 4)
    + (LittleEndian(r.outDegree, 4) + (LittleEndian(r.propertyOffset, 8) + (LittleEndian(r.inEdgesOffset, 8)
    + LittleEndian(r.outEdgesOffset, 8)))))))
  }

  function EdgeHeader(r: EdgeRecord): (bytes: seq<Byte>)
    ensures |bytes| == 48
  {
    LittleEndian(r.id, 8) + (LittleEndian(r.fromNode, 8) + (LittleEndian(r.toNode, 8) + (LittleEndian(r.labelId, 4)
    + (LittleEndian(r.propertyCount, 4) + (LittleEndian(r.propertyOffset, 8) + LittleEndian(r.timestamp, 8))))))
  }

  function NodeAt(data: seq<Byte>): NodeRecord
    requires |data| >= 48
  {
    NodeRecord(Read64(data), Read32(data[8..]), Read32(data[12..]), Read32(data[16..]), Read32(data[20..]),
               Read64(data[24..]), Read64(data[32..]), Read64(data[40..]))
  }

  function EdgeAt(data: seq<Byte>): EdgeRecord
    requires |data| >= 48
  {
    EdgeRecord(Read64(data), Read64(data[8..]), Read64(data[16..]), Read32(data[24..]), Read32(data[28..]),
               Read64(data[32..]), Read64(data[40..]))
  }

  function NodeBytes(r: NodeRecord, properties: Properties): seq<Byte> {
    NodeHeader(r) + PropertiesBytes(properties)
  }

  function EdgeBytes(r: EdgeRecord, properties: Properties): seq<Byte> {
    EdgeHeader(r) + PropertiesBytes(properties)
  }

  function ParseNode(data: seq<Byte>): Result<(NodeRecord, Properties), Corruption> {
    if |data| < 48 then Err(ShortRecord)
    else
      match ParseProperties(data[48..])
      case Err(e) => Err(e)
      case Ok((properties, _)) => Ok((NodeAt(data), properties))
  }

  function ParseEdge(data: seq<Byte>): Result<(EdgeRecord, Properties), Corruption> {
    if |data| < 48 then Err(ShortRecord)
    else
      match ParseProperties(data[48..])
      case Err(e) => Err(e)
      case Ok((properties, _)) => Ok((EdgeAt(data), properties))
  }

  method SerializeNode(r: NodeRecord, properties: Properties) returns (buffer: seq<Byte>)
    ensures buffer == NodeBytes(r, properties)
  {
    var props := SerializeProperties(properties);
    buffer := NodeHeader(r) + props;
  }

  method SerializeEdge(r: EdgeRecord, properties: Properties) returns (buffer: seq<Byte>)
    ensures buffer == EdgeBytes(r, properties)
  {
    var props := SerializeProperties(properties);
    buffer := EdgeHeader(r) + props;
  }

  method DeserializeNode(data: seq<Byte>) returns (result: Result<(NodeRecord, Properties), Corruption>)
    ensures result == ParseNode(data)
  {
    if |data| < 48 {
      return Err(ShortRecord);
    }
    var properties := DeserializeProperties(data[48..]);
    return if properties.Ok? then Ok((NodeAt(data), properties.value)) else Err(properties.error);
  }

  method DeserializeEdge(data: seq<Byte>) returns (result: Result<(EdgeRecord, Properties), Corruption>)
    ensures result == ParseEdge(data)
  {
    if |data| < 48 {
      return Err(ShortRecord);
    }
    var properties := DeserializeProperties(data[48..]);
    return if properties.Ok? then Ok((EdgeAt(data), properties.value)) else Err(properties.error);
  }

  // ----- Round trips: each reader takes exactly what its writer wrote -----

  lemma VarIntRoundTrip(value: U64, rest: seq<Byte>)
    ensures ParseVarInt(VarInt.Encoded(value) + rest) == Ok((value, rest))
  {
    VarInt.RoundTrip(value, rest);
    assert (VarInt.Encoded(value) + rest)[|VarInt.Encoded(value)|..] == rest;
  }

  lemma TextRoundTrip(text: Text, short: Corruption, rest: seq<Byte>)
    ensures ParseText(TextBytes(text) + rest, short) == Ok((text, rest))
  {
    hide VarInt.Encoded, ParseVarInt;
    assert TextBytes(text) + rest == VarInt.Encoded(|text|) + (text + rest);
    VarIntRoundTrip(|text|, text + rest);
    assert (text + rest)[..|text|] == text && (text + rest)[|text|..] == rest;
  }

  lemma ValueRoundTrip(value: Value, rest: seq<Byte>)
    ensures var bytes := ValueBytes(value);
            bytes != [] && ParseValue((bytes + rest)[1..], bytes[0]) == Ok((value, rest))
  {
    hide TextBytes, ParseText, ParseVarInt, VarInt.Encoded, VarInt.ZigZagEncode, VarInt.ZigZagDecode;
    var bytes := ValueBytes(value);
    assert (bytes + rest)[1..] == bytes[1..] + rest;
    match value {
      case String(text) => TextRoundTrip(text, ShortString, rest);
      case Integer(n) =>
        VarIntRoundTrip(VarInt.ZigZagEncode(n), rest);
        VarInt.ZigZagBijection(n, VarInt.ZigZagEncode(n));
      case Float(bits) => assert (bits + rest)[..8] == bits && (bits + rest)[8..] == rest;
      case Boolean(b) => assert ([if b then 1 else 0] + rest)[1..] == rest;
      case Blob(blob) => TextRoundTrip(blob, ShortBytes, rest);
    }
  }

  lemma PropertyRoundTrip(p: Property, rest: seq<Byte>)
    ensures ParseProperty(PropertyBytes(p) + rest) == Ok((p, rest))
  {
    hide TextBytes, ValueBytes, ParseText, ParseValue;
    var bytes := ValueBytes(p.value);
    assert PropertyBytes(p) + rest == TextBytes(p.key) + (bytes + rest);
    TextRoundTrip(p.key, ShortString, bytes + rest);
    ValueRoundTrip(p.value, rest);
    assert (bytes + rest)[0] == bytes[0];
  }

  lemma {:induction false} ListRoundTrip(properties: Properties, i: nat, rest: seq<Byte>)
    requires i <= |properties|
    ensures ParseList(ListBytes(properties[i..]) + rest, i, |properties|, properties[..i]) == Ok((properties, rest))
    decreases |properties| - i
  {
    hide PropertyBytes, ParseProperty;
    if i == |properties| {
      assert properties[..i] == properties && ListBytes(properties[i..]) + rest == rest;
    } else {
      assert properties[i..][1..] == properties[i + 1..] && properties[..i + 1] == properties[..i] + [properties[i]];
      var after := ListBytes(properties[i + 1..]) + rest;
      assert ListBytes(properties[i..]) + rest == PropertyBytes(properties[i]) + after;
      PropertyRoundTrip(properties[i], after);
      ListRoundTrip(properties, i + 1, rest);
    }
  }

  lemma PropertiesRoundTrip(properties: Properties, rest: seq<Byte>)
    ensures ParseProperties(PropertiesBytes(properties) + rest) == Ok((properties, rest))
  {
    hide VarInt.Encoded, ParseVarInt, ListBytes, ParseList;
    var list := ListBytes(properties);
    assert PropertiesBytes(properties) + rest == VarInt.Encoded(|properties|) + (list + rest);
    VarIntRoundTrip(|properties|, list + rest);
    assert properties[0..] == properties && properties[..0] == [];
    ListRoundTrip(properties, 0, rest);
  }

  lemma NodeHeaderRoundTrip(r: NodeRecord, rest: seq<Byte>)
    ensures NodeAt(NodeHeader(r) + rest) == r
  {
    hide LittleEndian, Read32, Read64;
    var t8 := LittleEndian(r.outEdgesOffset, 8) + rest;
    var t7 := LittleEndian(r.inEdgesOffset, 8) + t8;
    var t6 := LittleEndian(r.propertyOffset, 8) + t7;
    var t5 := LittleEndian(r.outDegree, 4) + t6;
    var t4 := LittleEndian(r.inDegree, 4) + t5;
    var t3 := LittleEndian(r.propertyCount, 4) + t4;
    var t2 := LittleEndian(r.labelCount, 4) + t3;
    var data := LittleEndian(r.id, 8) + t2;
    assert NodeHeader(r) + rest == data;
    Read64RoundTrip(r.id, t2);
    Read32RoundTrip(r.labelCount, t3);
    Read32RoundTrip(r.propertyCount, t4);
    Read32RoundTrip(r.inDegree, t5);
    Read32RoundTrip(r.outDegree, t6);
    Read64RoundTrip(r.propertyOffset, t7);
    Read64RoundTrip(r.inEdgesOffset, t8);
    Read64RoundTrip(r.outEdgesOffset, rest);
    assert data[8..] == t2 && data[12..] == t3 && data[16..] == t4 && data[20..] == t5 && data[24..] == t6
        && data[32..] == t7 && data[40..] == t8;
  }

  lemma EdgeHeaderRoundTrip(r: EdgeRecord, rest: seq<Byte>)
    ensures EdgeAt(EdgeHeader(r) + rest) == r
  {
    hide LittleEndian, Read32, Read64;
    var t7 := LittleEndian(r.timestamp, 8) + rest;
    var t6 := LittleEndian(r.propertyOffset, 8) + t7;
    var t5 := LittleEndian(r.propertyCount, 4) + t6;
    var t4 := LittleEndian(r.labelId, 4) + t5;
    var t3 := LittleEndian(r.toNode, 8) + t4;
    var t2 := LittleEndian(r.fromNode, 8) + t3;
    var data := LittleEndian(r.id, 8) + t2;
    assert EdgeHeader(r) + rest == data;
    Read64RoundTrip(r.id, t2);
    Read64RoundTrip(r.fromNode, t3);
    Read64RoundTrip(r.toNode, t4);
    Read32RoundTrip(r.labelId, t5);
    Read32RoundTrip(r.propertyCount, t6);
    Read64RoundTrip(r.propertyOffset, t7);
    Read64RoundTrip(r.timestamp, rest);
    assert data[8..] == t2 && data[16..] == t3 && data[24..] == t4 && data[28..] == t5 && data[32..] == t6 && data[40..] == t7;
  }

  lemma NodeRoundTrip(r: NodeRecord, properties: Properties, rest: seq<Byte>)
    ensures ParseNode(NodeBytes(r, properties) + rest) == Ok((r, properties))
  {
    hide NodeHeader, NodeAt, PropertiesBytes, ParseProperties;
    var data := NodeBytes(r, properties) + rest;
    assert data == NodeHeader(r) + (PropertiesBytes(properties) + rest);
    NodeHeaderRoundTrip(r, PropertiesBytes(properties) + rest);
    assert data[48..] == PropertiesBytes(properties) + rest;
    PropertiesRoundTrip(properties, rest);
  }

  lemma EdgeRoundTrip(r: EdgeRecord, properties: Properties, rest: seq<Byte>)
    ensures ParseEdge(EdgeBytes(r, properties) + rest) == Ok((r, properties))
  {
    hide EdgeHeader, EdgeAt, PropertiesBytes, ParseProperties;
    var data := EdgeBytes(r, properties) + rest;
    assert data == EdgeHeader(r) + (PropertiesBytes(properties) + rest);
    EdgeHeaderRoundTrip(r, PropertiesBytes(properties) + rest);
    assert data[48..] == PropertiesBytes(properties) + rest;
    PropertiesRoundTrip(properties, rest);
  }

  // ----- Framing: what follows a value is never looked at, and a cut-off list is always refused -----

  lemma VarIntExtends(data: seq<Byte>, more: seq<Byte>)
    requires ParseVarInt(data).Ok?
    ensures var (value, rest) := ParseVarInt(data).value; ParseVarInt(data + more) == Ok((value, rest + more))
  {
    var (value, used) := VarInt.Decoded(data).value;
    VarInt.DecodedIff(data, value, used);
    assert (data + more)[..used] == data[..used] && (data + more)[used..] == data[used..] + more;
    VarInt.DecodedIff(data + more, value, used);
  }

  lemma TextExtends(data: seq<Byte>, short: Corruption, more: seq<Byte>)
    requires ParseText(data, short).Ok?
    ensures var (text, rest) := ParseText(data, short).value; ParseText(data + more, short) == Ok((text, rest + more))
  {
    hide ParseVarInt;
    VarIntExtends(data, more);
    var (len, rest) := ParseVarInt(data).value;
    assert (rest + more)[..len] == rest[..len] && (rest + more)[len..] == rest[len..] + more;
  }

  lemma ValueExtends(data: seq<Byte>, kind: Byte, more: seq<Byte>)
    requires ParseValue(data, kind).Ok?
    ensures var (value, rest) := ParseValue(data, kind).value; ParseValue(data + more, kind) == Ok((value, rest + more))
  {
    hide ParseVarInt, ParseText;
    if kind == 0 {
      TextExtends(data, ShortString, more);
    } else if kind == 1 {
      VarIntExtends(data, more);
    } else if kind == 2 {
      assert (data + more)[..8] == data[..8] && (data + more)[8..] == data[8..] + more;
    } else if kind == 3 {
      assert (data + more)[1..] == data[1..] + more;
    } else {
      TextExtends(data, ShortBytes, more);
    }
  }

  lemma PropertyExtends(data: seq<Byte>, more: seq<Byte>)
    requires ParseProperty(data).Ok?
    ensures var (p, rest) := ParseProperty(data).value; ParseProperty(data + more) == Ok((p, rest + more))
  {
    hide ParseText, ParseValue;
    TextExtends(data, ShortString, more);
    var (key, rest) := ParseText(data, ShortString).value;
    ValueExtends(rest[1..], rest[0], more);
    assert (rest + more)[1..] == rest[1..] + more;
  }

  lemma {:induction false} ListExtends(data: seq<Byte>, i: nat, count: U64, before: seq<Property>, more: seq<Byte>)
    requires |before| == i <= count && ParseList(data, i, count, before).Ok?
    ensures var (ps, rest) := ParseList(data, i, count, before).value;
            ParseList(data + more, i, count, before) == Ok((ps, rest + more))
    decreases count - i
  {
    hide ParseProperty;
    if i < count {
      PropertyExtends(data, more);
      var (p, rest) := ParseProperty(data).value;
      ListExtends(rest, i + 1, count, before + [p], more);
    }
  }

  lemma PropertiesExtend(data: seq<Byte>, more: seq<Byte>)
    requires ParseProperties(data).Ok?
    ensures var (ps, rest) := ParseProperties(data).value; ParseProperties(data + more) == Ok((ps, rest + more))
  {
    hide ParseVarInt, ParseList;
    VarIntExtends(data, more);
    var (count, rest) := ParseVarInt(data).value;
    ListExtends(rest, 0, count, [], more);
  }

  /** A list cut off at any byte is refused. */
  lemma TruncatedIsRefused(properties: Properties, n: nat)
    requires n < |PropertiesBytes(properties)|
    ensures ParseProperties(PropertiesBytes(properties)[..n]).Err?
  {
    hide PropertiesBytes, ParseProperties;
    var bytes := PropertiesBytes(properties);
    if ParseProperties(bytes[..n]).Ok? {
      PropertiesExtend(bytes[..n], bytes[n..]);
      assert bytes[..n] + bytes[n..] == bytes + [];
      PropertiesRoundTrip(properties, []);
    }
  }

  /** Two lists whose bytes begin a common string are the same list. */
  lemma PropertiesPrefixFree(a: Properties, b: Properties, r: seq<Byte>, s: seq<Byte>)
    requires PropertiesBytes(a) + r == PropertiesBytes(b) + s
    ensures a == b && r == s
  {
    hide PropertiesBytes, ParseProperties;
    PropertiesRoundTrip(a, r);
    PropertiesRoundTrip(b, s);
  }

  // ----- The bytes, spelt out -----

  /** The type byte of each kind of value, and what follows it. */
  lemma ValueLayout(text: Text, n: I64, bits: Double, bytes: Text)
    ensures ValueBytes(String(text)) == [0] + (VarInt.Encoded(|text|) + text)
    ensures ValueBytes(Integer(n)) == [1] + VarInt.Encoded(Code(n))
    ensures ValueBytes(Float(bits)) == [2] + bits
    ensures ValueBytes(Boolean(true)) == [3] + [1] && ValueBytes(Boolean(false)) == [3] + [0]
    ensures ValueBytes(Blob(bytes)) == [4] + (VarInt.Encoded(|bytes|) + bytes)
  {
    hide VarInt.Encoded;
    CodeIsZigZag(n);
  }

  /** Non-negative numbers are even codes, negative ones odd. */
  function Code(n: I64): (code: U64)
    ensures code == if n >= 0 then 2 * n else -2 * n - 1
  {
    if n >= 0 then 2 * n else -2 * n - 1
  }

  lemma CodeIsZigZag(n: I64)
    ensures VarInt.ZigZagEncode(n) == Code(n)
  {
    VarInt.ZigZagBijection(n, 0);
  }

  /** What reading a value of a fixed size gives, by its type byte. */
  lemma ValueRead(data: seq<Byte>, kind: Byte)
    ensures ParseValue(data, 2) == if |data| < 8 then Err(ShortFloat) else Ok((Float(data[..8]), data[8..]))
    ensures ParseValue(data, 3) == if |data| == 0 then Err(ShortBoolean) else Ok((Boolean(data[0] != 0), data[1..]))
    ensures kind > 4 ==> ParseValue(data, kind) == Err(UnknownType)
  {
  }

  /** What reading a number, a string or bytes gives: a varint first, and then as many bytes as it says. */
  lemma CountedRead(data: seq<Byte>)
    ensures match VarInt.Decoded(data)
            case Err(e) =>
              ParseValue(data, 0) == Err(BadVarInt(e)) && ParseValue(data, 1) == Err(BadVarInt(e))
              && ParseValue(data, 4) == Err(BadVarInt(e))
            case Ok((n, used)) =>
              && 0 <= n < RANGE_64 && 0 < used <= |data|
              && ParseValue(data, 1) == Ok((Integer(if n % 2 == 0 then n / 2 else -(n / 2) - 1), data[used..]))
              && (if |data| - used < n
                  then ParseValue(data, 0) == Err(ShortString) && ParseValue(data, 4) == Err(ShortBytes)
                  else ParseValue(data, 0) == Ok((String(data[used..used + n]), data[used + n..]))
                       && ParseValue(data, 4) == Ok((Blob(data[used..used + n]), data[used + n..])))
  {
    match VarInt.Decoded(data)
    case Err(_) =>
    case Ok((n, used)) =>
      VarInt.DecodedIff(data, n, used);
      VarInt.ZigZagBijection(0, n);
      if |data| - used >= n {
        assert data[used..][..n] == data[used..used + n] && data[used..][n..] == data[used + n..];
      }
  }

  /** A property is its key, counted, and its value; a list is its length and its properties in order. */
  lemma PropertiesLayout(p: Property, rest: seq<Property>, properties: Properties)
    ensures PropertyBytes(p) == VarInt.Encoded(|p.key|) + p.key + ValueBytes(p.value)
    ensures ListBytes([]) == [] && ListBytes([p] + rest) == PropertyBytes(p) + ListBytes(rest)
    ensures PropertiesBytes(properties) == VarInt.Encoded(|properties|) + ListBytes(properties)
  {
    assert ([p] + rest)[1..] == rest;
  }

  /** Bytes come least significant first. */
  lemma LittleEndianFirst(n: nat, k: nat)
    ensures LittleEndian(n, 0) == [] && LittleEndian(n, k + 1) == [n % 0x100] + LittleEndian(n / 0x100, k)
  {
  }

  lemma EightParts(a: seq<Byte>, b: seq<Byte>, c: seq<Byte>, d: seq<Byte>, e: seq<Byte>, rest: seq<Byte>)
    requires |a| == 8 && |b| == |c| == |d| == |e| == 4
    ensures var all := a + (b + (c + (d + (e + rest))));
            && all[0..8] == a && all[8..12] == b && all[12..16] == c && all[16..20] == d && all[20..24] == e
            && all[24..] == rest
  {
    var l4 := e + rest;
    var l3 := d + l4;
    var l2 := c + l3;
    var l1 := b + l2;
    assert l1[0..4] == b && l1[4..] == l2 && l2[0..4] == c && l2[4..] == l3 && l3[0..4] == d && l3[4..] == l4;
    assert l4[0..4] == e && l4[4..] == rest;
    assert l1[4..8] == l2[0..4] && l1[8..12] == l2[4..8] == l3[0..4] && l1[12..16] == l2[8..12] == l3[4..8] == l4[0..4];
    assert l1[16..] == l2[12..] == l3[8..] == l4[4..];
  }

  lemma ThreeParts(a: seq<Byte>, b: seq<Byte>, c: seq<Byte>)
    requires |a| == |b| == |c| == 8
    ensures var all := a + (b + c); all[0..8] == a && all[8..16] == b && all[16..24] == c
  {
  }

  /** The fields of a node record at their places. */
  lemma NodeLayout(r: NodeRecord)
    ensures var h := NodeHeader(r);
            && h[0..8] == LittleEndian(r.id, 8) && h[8..12] == LittleEndian(r.labelCount, 4)
            && h[12..16] == LittleEndian(r.propertyCount, 4) && h[16..20] == LittleEndian(r.inDegree, 4)
            && h[20..24] == LittleEndian(r.outDegree, 4)
            && var rest := h[24..];
               && rest[0..8] == LittleEndian(r.propertyOffset, 8) && rest[8..16] == LittleEndian(r.inEdgesOffset, 8)
               && rest[16..24] == LittleEndian(r.outEdgesOffset, 8)
  {
    hide LittleEndian;
    var p, i, o := LittleEndian(r.propertyOffset, 8), LittleEndian(r.inEdgesOffset, 8), LittleEndian(r.outEdgesOffset, 8);
    EightParts(LittleEndian(r.id, 8), LittleEndian(r.labelCount, 4), LittleEndian(r.propertyCount, 4),
               LittleEndian(r.inDegree, 4), LittleEndian(r.outDegree, 4), p + (i + o));
    ThreeParts(p, i, o);
  }

  lemma EdgeParts(a: seq<Byte>, b: seq<Byte>, c: seq<Byte>, d: seq<Byte>, e: seq<Byte>, f: seq<Byte>, g: seq<Byte>)
    requires |a| == |b| == |c| == |f| == |g| == 8 && |d| == |e| == 4
    ensures var all := a + (b + (c + (d + (e + (f + g)))));
            && all[0..8] == a && all[8..16] == b && all[16..24] == c
            && var rest := all[24..]; rest[0..4] == d && rest[4..8] == e && rest[8..16] == f && rest[16..24] == g
  {
    var r := d + (e + (f + g));
    ThreeParts(a, b, c);
    assert a + (b + (c + r)) == (a + (b + c)) + r;
    assert r[0..4] == d && r[4..8] == e && r[8..16] == f && r[16..24] == g;
  }

  /** The fields of an edge record at their places. */
  lemma EdgeLayout(r: EdgeRecord)
    ensures var h := EdgeHeader(r);
            && h[0..8] == LittleEndian(r.id, 8) && h[8..16] == LittleEndian(r.fromNode, 8)
            && h[16..24] == LittleEndian(r.toNode, 8)
            && var rest := h[24..];
               && rest[0..4] == LittleEndian(r.labelId, 4) && rest[4..8] == LittleEndian(r.propertyCount, 4)
               && rest[8..16] == LittleEndian(r.propertyOffset, 8) && rest[16..24] == LittleEndian(r.timestamp, 8)
  {
    hide LittleEndian;
    EdgeParts(LittleEndian(r.id, 8), LittleEndian(r.fromNode, 8), LittleEndian(r.toNode, 8), LittleEndian(r.labelId, 4),
              LittleEndian(r.propertyCount, 4), LittleEndian(r.propertyOffset, 8), LittleEndian(r.timestamp, 8));
  }

  /** A stored record is its 48 bytes and then its properties; fewer than 48 bytes are refused. */
  lemma RecordLayout(node: NodeRecord, edge: EdgeRecord, properties: Properties, data: seq<Byte>)
    ensures NodeBytes(node, properties) == NodeHeader(node) + PropertiesBytes(properties)
    ensures EdgeBytes(edge, properties) == EdgeHeader(edge) + PropertiesBytes(properties)
    ensures |data| < 48 ==> ParseNode(data) == Err(ShortRecord) && ParseEdge(data) == Err(ShortRecord)
  {
  }
}
