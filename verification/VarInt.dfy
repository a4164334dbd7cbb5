// Variable-length integers and the ZigZag code (src/util/varint.cpp:5-60).
module VarInt {
  import opened Wrappers
  import opened Bytes

  datatype Failure = TooLong | Incomplete

  /** Seven bits a byte, low bits first, the top bit set on every byte but the last (section 7.6 of DWARF Version 5). */
  function Encoded(value: nat): (bytes: seq<Byte>)
    ensures bytes != []
    decreases value
  {
    if value < 0x80 then [value] else [0x80 + value % 0x80] + Encoded(value / 0x80)
  }

  /** The number the low seven bits of each byte spell, low bits first. */
  function Weigh(bytes: seq<Byte>): nat {
    if bytes == [] then 0 else bytes[0] % 0x80 + 0x80 * Weigh(bytes[1..])
  }

  /** x shifted left by 7 * i bits. */
  function Shifted(x: nat, i: nat): nat {
    if i == 0 then x else 0x80 * Shifted(x, i - 1)
  }

  /** Every byte but the last announces another one. */
  predicate Framed(bytes: seq<Byte>) {
    && bytes != [] && bytes[|bytes| - 1] < 0x80
    && forall i :: 0 <= i < |bytes| - 1 ==> bytes[i] >= 0x80
  }

  // ----- Encoding -----

  method EncodedSize(value: U64) returns (size: nat)
    ensures size == |Encoded(value)|
  {
    size := 1;
    var v: nat := value;
    while v >= 0x80
      invariant size + |Encoded(v)| == 1 + |Encoded(value)|
    {
      size, v := size + 1, v / 0x80;
    }
  }

  method Encode(value: U64, buffer: array<Byte>) returns (written: nat)
    modifies buffer
    ensures |Encoded(value)| <= buffer.Length ==>
              written == |Encoded(value)|
              && buffer[..] == Encoded(value) + old(buffer[written..])
    ensures |Encoded(value)| > buffer.Length ==> written == 0 && buffer[..] == Encoded(value)[..buffer.Length]
  {
    hide Encoded;
    var pos := 0;
    var v: nat := value;
    while v >= 0x80 && pos < buffer.Length
      invariant pos <= buffer.Length
      invariant buffer[..pos] + Encoded(v) == Encoded(value)
      invariant buffer[pos..] == old(buffer[pos..])
    {
      ghost var before, tail := buffer[..pos], old(buffer[pos..]);
      EncodedUnfolds(v);
      buffer[pos] := 0x80 + v % 0x80;
      assert buffer[..pos + 1] == before + [0x80 + v % 0x80];
      v := v / 0x80;
      pos := pos + 1;
      assert buffer[pos..] == tail[1..];
    }
    EncodedUnfolds(v);
    if pos < buffer.Length {
      ghost var before, tail := buffer[..pos], old(buffer[pos..]);
      buffer[pos] := v;
      assert buffer[..pos + 1] == before + [v];
      assert buffer[pos + 1..] == tail[1..];
      return pos + 1;
    }
    return 0;
  }

  lemma EncodedUnfolds(value: nat)
    ensures value < 0x80 ==> Encoded(value) == [value]
    ensures value >= 0x80 ==> Encoded(value) == [0x80 + value % 0x80] + Encoded(value / 0x80)
  {
  }

  lemma {:induction false} EncodedIsFramed(value: nat)
    ensures Framed(Encoded(value)) && Weigh(Encoded(value)) == value
    decreases value
  {
    if value >= 0x80 {
      EncodedIsFramed(value / 0x80);
      var rest := Encoded(value / 0x80);
      assert ([0x80 + value % 0x80] + rest)[1..] == rest;
    }
  }

  // ----- Decoding -----

  /** The loop from byte i on: the value and the number of bytes it took. */
  function DecodeFrom(data: seq<Byte>, i: nat, value: nat): (r: Result<(nat, nat), Failure>)
    requires i <= |data|
    ensures r.Ok? ==> i < r.value.1 <= |data|
    decreases |data| - i
  {
    if i == |data| then Err(Incomplete)
    else if 7 * i >= 64 then Err(TooLong)
    else
      // The bits being or-ed in lie above those already there, so that or is addition.
      var next := value + Shifted(data[i] % 0x80, i) % RANGE_64;
      if data[i] < 0x80 then Ok((next, i + 1)) else DecodeFrom(data, i + 1, next)
  }

  function Decoded(data: seq<Byte>): (r: Result<(nat, nat), Failure>)
    ensures r.Ok? ==> 0 < r.value.1 <= |data|
  {
    DecodeFrom(data, 0, 0)
  }

  method Decode(data: seq<Byte>) returns (result: Result<nat, Failure>, rest: seq<Byte>)
    ensures match Decoded(data)
            case Ok((value, used)) => result == Ok(value) && used <= |data| && rest == data[used..]
            case Err(e) => result == Err(e) && rest == data
  {
    var value: nat, shift: nat := 0, 0;
    for i := 0 to |data|
      invariant shift == 7 * i
      invariant Decoded(data) == DecodeFrom(data, i, value)
    {
      if shift >= 64 {
        return Err(TooLong), data;
      }
      value := value + Shifted(data[i] % 0x80, shift / 7) % RANGE_64;
      if data[i] < 0x80 {
        return Ok(value), data[i + 1..];
      }
      shift := shift + 7;
    }
    return Err(Incomplete), data;
  }

  lemma {:induction false} WeighLast(bytes: seq<Byte>, b: Byte)
    ensures Weigh(bytes + [b]) == Weigh(bytes) + Shifted(b % 0x80, |bytes|)
  {
    if bytes != [] {
      WeighLast(bytes[1..], b);
      assert (bytes + [b])[1..] == bytes[1..] + [b];
    }
  }

  lemma {:induction false} WeighBound(bytes: seq<Byte>)
    ensures Weigh(bytes) < Shifted(1, |bytes|)
  {
    if bytes != [] {
      WeighBound(bytes[1..]);
    }
  }

  lemma {:induction false} ShiftedUpTo(i: nat, j: nat)
    requires i <= j
    ensures Shifted(1, i) <= Shifted(1, j)
    decreases j
  {
    if i < j {
      ShiftedUpTo(i, j - 1);
    }
  }

  lemma ShiftedNine(x: nat)
    ensures Shifted(x, 9) == 0x8000_0000_0000_0000 * x
  {
    assert Shifted(x, 1) == 0x80 * x;
    assert Shifted(x, 2) == 0x4000 * x;
    assert Shifted(x, 3) == 0x20_0000 * x;
    assert Shifted(x, 4) == 0x1000_0000 * x;
    assert Shifted(x, 5) == 0x8_0000_0000 * x;
    assert Shifted(x, 6) == 0x400_0000_0000 * x;
    assert Shifted(x, 7) == 0x2_0000_0000_0000 * x;
    assert Shifted(x, 8) == 0x100_0000_0000_0000 * x;
  }

  /** A number of up to nine bytes has at most 63 bits. */
  lemma NineBytes(bytes: seq<Byte>)
    requires |bytes| <= 9
    ensures Weigh(bytes) < 0x8000_0000_0000_0000
  {
    WeighBound(bytes);
    ShiftedUpTo(|bytes|, 9);
    ShiftedNine(1);
  }

  lemma ModOfSum(q: nat, s: nat)
    requires s < RANGE_64
    ensures (RANGE_64 * q + s) % RANGE_64 == s
  {
  }

  lemma TopBit(low: nat, x: nat)
    requires low < 0x8000_0000_0000_0000
    ensures low + 0x8000_0000_0000_0000 * x % RANGE_64 == (low + 0x8000_0000_0000_0000 * x) % RANGE_64
    ensures low + 0x8000_0000_0000_0000 * x < RANGE_64 <==> x <= 1
  {
    var q, top := x / 2, if x % 2 == 1 then 0x8000_0000_0000_0000 else 0;
    assert 0x8000_0000_0000_0000 * x == RANGE_64 * q + top;
    ModOfSum(q, top);
    ModOfSum(q, low + top);
  }

  /** Up to nine bytes nothing is lost; from the tenth only the lowest bit stays. */
  lemma AddByte(bytes: seq<Byte>, b: Byte)
    requires |bytes| <= 9
    ensures Weigh(bytes) + Shifted(b % 0x80, |bytes|) % RANGE_64 == Weigh(bytes + [b]) % RANGE_64
    ensures Weigh(bytes + [b]) < RANGE_64 <==> |bytes| == 9 ==> b % 0x80 <= 1
  {
    hide Weigh, Shifted;
    WeighLast(bytes, b);
    NineBytes(bytes);
    if |bytes| < 9 {
      NineBytes(bytes + [b]);
    } else {
      ShiftedNine(b % 0x80);
      TopBit(Weigh(bytes), b % 0x80);
    }
  }

  ghost predicate Continued(data: seq<Byte>, n: nat) {
    n <= |data| && forall i :: 0 <= i < n ==> data[i] >= 0x80
  }

  lemma {:induction false} DecodeFromExact(data: seq<Byte>, i: nat, value: nat)
    requires Continued(data, i) && i <= 10 && (i <= 9 ==> value == Weigh(data[..i]))
    ensures match DecodeFrom(data, i, value)
            case Ok((v, used)) => used <= 10 && used <= |data| && Framed(data[..used]) && v == Weigh(data[..used]) % RANGE_64
            case Err(TooLong) => |data| > 10 && Continued(data, 10)
            case Err(Incomplete) => |data| <= 10 && Continued(data, |data|)
    decreases |data| - i
  {
    hide Weigh, Shifted;
    if i < |data| && i <= 9 {
      AddByte(data[..i], data[i]);
      assert data[..i + 1] == data[..i] + [data[i]];
      if data[i] >= 0x80 {
        DecodeFromExact(data, i + 1, value + Shifted(data[i] % 0x80, i) % RANGE_64);
      }
    }
  }

  lemma FrameShape(data: seq<Byte>, n: nat)
    requires n <= |data| && Framed(data[..n])
    ensures Continued(data, n - 1) && data[n - 1] < 0x80
  {
    forall i | 0 <= i < n - 1 ensures data[i] >= 0x80 {
      assert data[..n][i] == data[i];
    }
  }

  lemma FramedUnique(data: seq<Byte>, m: nat, n: nat)
    requires m <= |data| && n <= |data| && Framed(data[..m]) && Framed(data[..n])
    ensures m == n
  {
    FrameShape(data, m);
    FrameShape(data, n);
  }

  /**
   * `decode` succeeds exactly on input that begins with a frame of at most ten bytes, which it uses up;
   * it gives the number spelt modulo 2^64. Otherwise ten continued bytes before another one are too long.
   */
  lemma DecodedIff(data: seq<Byte>, value: nat, used: nat)
    ensures Decoded(data) == Ok((value, used)) <==>
            used <= 10 && used <= |data| && Framed(data[..used]) && value == Weigh(data[..used]) % RANGE_64
    ensures Decoded(data) == Err(TooLong) <==> |data| > 10 && Continued(data, 10)
    ensures Decoded(data) == Err(Incomplete) <==> |data| <= 10 && Continued(data, |data|)
  {
    DecodeFromExact(data, 0, 0);
    if used <= |data| && Framed(data[..used]) && used <= 10 {
      assert data[..used][used - 1] == data[used - 1];
      if Decoded(data).Ok? {
        FramedUnique(data, used, Decoded(data).value.1);
      }
    }
  }

  // ----- Round trips -----

  lemma {:induction false} EncodedFits(value: nat, n: nat)
    requires n > 0
    ensures |Encoded(value)| <= n <==> value < Shifted(1, n)
    decreases n
  {
    if n == 1 {
      assert Shifted(1, 1) == 0x80;
    } else if value >= 0x80 {
      EncodedFits(value / 0x80, n - 1);
    } else {
      ShiftedUpTo(1, n);
      assert Shifted(1, 1) == 0x80;
    }
  }

  lemma EncodedAtMostTen(value: U64)
    ensures |Encoded(value)| <= 10
  {
    ShiftedNine(1);
    assert Shifted(1, 10) == 0x80 * Shifted(1, 9);
    EncodedFits(value, 10);
  }

  /** Decoding what was encoded gives the value back and stops where the encoding does. */
  lemma RoundTrip(value: U64, rest: seq<Byte>)
    ensures Decoded(Encoded(value) + rest) == Ok((value, |Encoded(value)|))
  {
    EncodedIsFramed(value);
    EncodedAtMostTen(value);
    assert (Encoded(value) + rest)[..|Encoded(value)|] == Encoded(value);
    DecodedIff(Encoded(value) + rest, value, |Encoded(value)|);
  }

  /** No byte string that decodes to the value is shorter than its encoding. */
  lemma EncodedIsMinimal(data: seq<Byte>, value: nat, used: nat)
    requires Decoded(data) == Ok((value, used))
    ensures |Encoded(value)| <= used
  {
    DecodedIff(data, value, used);
    WeighBound(data[..used]);
    EncodedFits(value, used);
  }

  lemma {:induction false} FramedIsEncoded(bytes: seq<Byte>)
    requires Framed(bytes) && (|bytes| == 1 || bytes[|bytes| - 1] != 0)
    ensures bytes == Encoded(Weigh(bytes)) && (|bytes| > 1 ==> Weigh(bytes) >= 0x80)
    decreases |bytes|
  {
    if |bytes| > 1 {
      var rest := bytes[1..];
      FramedIsEncoded(rest);
      assert Weigh(rest) > 0 by {
        if |rest| == 1 {
          assert Weigh(rest) == rest[0];
        }
      }
      ConsEncoded(bytes[0], Weigh(rest));
      assert bytes == [bytes[0]] + rest;
    }
  }

  lemma ConsEncoded(b: Byte, weight: nat)
    requires b >= 0x80 && weight > 0
    ensures Encoded(b % 0x80 + 0x80 * weight) == [b] + Encoded(weight)
  {
    var value := b % 0x80 + 0x80 * weight;
    assert value / 0x80 == weight && value % 0x80 == b % 0x80;
    EncodedUnfolds(value);
  }

  lemma FramedIsEncodedIff(bytes: seq<Byte>)
    requires Framed(bytes)
    ensures bytes == Encoded(Weigh(bytes)) <==> |bytes| == 1 || bytes[|bytes| - 1] != 0
  {
    hide Encoded, Weigh;
    EncodedEndsNonzero(Weigh(bytes));
    if |bytes| == 1 || bytes[|bytes| - 1] != 0 {
      FramedIsEncoded(bytes);
    }
  }

  lemma {:induction false} EncodedEndsNonzero(value: nat)
    ensures |Encoded(value)| == 1 || Encoded(value)[|Encoded(value)| - 1] != 0
    decreases value
  {
    if value >= 0x80 {
      EncodedEndsNonzero(value / 0x80);
    }
  }

  /** Re-encoding gives the same bytes exactly when there is no padding and no bit above the 64th. */
  lemma ReencodingIff(data: seq<Byte>, value: nat, used: nat)
    requires Decoded(data) == Ok((value, used))
    ensures Encoded(value) == data[..used] <==>
            (used == 1 || data[used - 1] != 0) && (used == 10 ==> data[9] <= 1)
  {
    hide Encoded, Weigh;
    DecodedIff(data, value, used);
    var bytes := data[..used];
    assert bytes[used - 1] == data[used - 1];
    FramedIsEncodedIff(bytes);
    WholeIff(bytes);
    if Encoded(value) == bytes {
      EncodedIsFramed(value);
    }
  }

  /** The number spelt fits in 64 bits exactly when a tenth byte is 0 or 1. */
  lemma WholeIff(bytes: seq<Byte>)
    requires Framed(bytes) && |bytes| <= 10
    ensures Weigh(bytes) < RANGE_64 <==> |bytes| == 10 ==> bytes[9] <= 1
  {
    var n := |bytes| - 1;
    assert bytes == bytes[..n] + [bytes[n]];
    AddByte(bytes[..n], bytes[n]);
  }

  // ----- ZigZag -----

  /** The two's complement conversions between int64_t and uint64_t. */
  function ToUnsigned(n: I64): U64 {
    if n >= 0 then n else n + RANGE_64
  }

  function ToSigned(n: U64): I64 {
    if n < RANGE_64 / 2 then n else n - RANGE_64
  }

  /** Exclusive or with a mask of 64 equal bits. */
  function XorMask(n: U64, ones: bool): U64 {
    if ones then RANGE_64 - 1 - n else n
  }

  /** The shift left drops the top bit; the arithmetic shift right by 63 repeats the sign. */
  function ZigZagEncode(n: I64): U64 {
    XorMask(ToUnsigned(n) * 2 % RANGE_64, n < 0)
  }

  function ZigZagDecode(n: U64): I64 {
    ToSigned(XorMask(n / 2, n % 2 == 1))
  }

  /** ZigZag codes are 2n and -2n - 1, and the two functions are inverse bijections. */
  lemma ZigZagBijection(n: I64, code: U64)
    ensures ZigZagEncode(n) == if n >= 0 then 2 * n else -2 * n - 1
    ensures ZigZagDecode(code) == n <==> ZigZagEncode(n) == code
  {
    if n < 0 {
      assert ToUnsigned(n) * 2 % RANGE_64 == 2 * n + RANGE_64;
    }
  }
}
