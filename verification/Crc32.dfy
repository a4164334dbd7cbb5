// The reflected CRC-32 of pages (src/util/crc32.cpp:5-72; section 8 of RFC 1952).
module Crc32 {
  const POLYNOMIAL: bv32 := 0xedb88320

  /** The entry of a row of sixteen that the low four bits of i select. */
  function Pick(i: bv8, x0: bv32, x1: bv32, x2: bv32, x3: bv32, x4: bv32, x5: bv32, x6: bv32, x7: bv32,
                x8: bv32, x9: bv32, x10: bv32, x11: bv32, x12: bv32, x13: bv32, x14: bv32, x15: bv32): bv32
  {
    if i & 8 == 0 then
      if i & 4 == 0 then
        if i & 2 == 0 then (if i & 1 == 0 then x0 else x1) else if i & 1 == 0 then x2 else x3
      else if i & 2 == 0 then (if i & 1 == 0 then x4 else x5) else if i & 1 == 0 then x6 else x7
    else
      if i & 4 == 0 then
        if i & 2 == 0 then (if i & 1 == 0 then x8 else x9) else if i & 1 == 0 then x10 else x11
      else if i & 2 == 0 then (if i & 1 == 0 then x12 else x13) else if i & 1 == 0 then x14 else x15
  }

  /** The precomputed table, sixteen rows of sixteen. */
  function Table(index: bv8): bv32 {
    Pick(index >> 4,
      Pick(index & 15,
        0x00000000, 0x77073096, 0xee0e612c, 0x990951ba, 0x076dc419, 0x706af48f, 0xe963a535, 0x9e6495a3,
        0x0edb8832, 0x79dcb8a4, 0xe0d5e91e, 0x97d2d988, 0x09b64c2b, 0x7eb17cbd, 0xe7b82d07, 0x90bf1d91),
      Pick(index & 15,
        0x1db71064, 0x6ab020f2, 0xf3b97148, 0x84be41de, 0x1adad47d, 0x6ddde4eb, 0xf4d4b551, 0x83d385c7,
        0x136c9856, 0x646ba8c0, 0xfd62f97a, 0x8a65c9ec, 0x14015c4f, 0x63066cd9, 0xfa0f3d63, 0x8d080df5),
      Pick(index & 15,
        0x3b6e20c8, 0x4c69105e, 0xd56041e4, 0xa2677172, 0x3c03e4d1, 0x4b04d447, 0xd20d85fd, 0xa50ab56b,
        0x35b5a8fa, 0x42b2986c, 0xdbbbc9d6, 0xacbcf940, 0x32d86ce3, 0x45df5c75, 0xdcd60dcf, 0xabd13d59),
      Pick(index & 15,
        0x26d930ac, 0x51de003a, 0xc8d75180, 0xbfd06116, 0x21b4f4b5, 0x56b3c423, 0xcfba9599, 0xb8bda50f,
        0x2802b89e, 0x5f058808, 0xc60cd9b2, 0xb10be924, 0x2f6f7c87, 0x58684c11, 0xc1611dab, 0xb6662d3d),
      Pick(index & 15,
        0x76dc4190, 0x01db7106, 0x98d220bc, 0xefd5102a, 0x71b18589, 0x06b6b51f, 0x9fbfe4a5, 0xe8b8d433,
        0x7807c9a2, 0x0f00f934, 0x9609a88e, 0xe10e9818, 0x7f6a0dbb, 0x086d3d2d, 0x91646c97, 0xe6635c01),
      Pick(index & 15,
        0x6b6b51f4, 0x1c6c6162, 0x856530d8, 0xf262004e, 0x6c0695ed, 0x1b01a57b, 0x8208f4c1, 0xf50fc457,
        0x65b0d9c6, 0x12b7e950, 0x8bbeb8ea, 0xfcb9887c, 0x62dd1ddf, 0x15da2d49, 0x8cd37cf3, 0xfbd44c65),
      Pick(index & 15,
        0x4db26158, 0x3ab551ce, 0xa3bc0074, 0xd4bb30e2, 0x4adfa541, 0x3dd895d7, 0xa4d1c46d, 0xd3d6f4fb,
        0x4369e96a, 0x346ed9fc, 0xad678846, 0xda60b8d0, 0x44042d73, 0x33031de5, 0xaa0a4c5f, 0xdd0d7cc9),
      Pick(index & 15,
        0x5005713c, 0x270241aa, 0xbe0b1010, 0xc90c2086, 0x5768b525, 0x206f85b3, 0xb966d409, 0xce61e49f,
        0x5edef90e, 0x29d9c998, 0xb0d09822, 0xc7d7a8b4, 0x59b33d17, 0x2eb40d81, 0xb7bd5c3b, 0xc0ba6cad),
      Pick(index & 15,
        0xedb88320, 0x9abfb3b6, 0x03b6e20c, 0x74b1d29a, 0xead54739, 0x9dd277af, 0x04db2615, 0x73dc1683,
        0xe3630b12, 0x94643b84, 0x0d6d6a3e, 0x7a6a5aa8, 0xe40ecf0b, 0x9309ff9d, 0x0a00ae27, 0x7d079eb1),
      Pick(index & 15,
        0xf00f9344, 0x8708a3d2, 0x1e01f268, 0x6906c2fe, 0xf762575d, 0x806567cb, 0x196c3671, 0x6e6b06e7,
        0xfed41b76, 0x89d32be0, 0x10da7a5a, 0x67dd4acc, 0xf9b9df6f, 0x8ebeeff9, 0x17b7be43, 0x60b08ed5),
      Pick(index & 15,
        0xd6d6a3e8, 0xa1d1937e, 0x38d8c2c4, 0x4fdff252, 0xd1bb67f1, 0xa6bc5767, 0x3fb506dd, 0x48b2364b,
        0xd80d2bda, 0xaf0a1b4c, 0x36034af6, 0x41047a60, 0xdf60efc3, 0xa867df55, 0x316e8eef, 0x4669be79),
      Pick(index & 15,
        0xcb61b38c, 0xbc66831a, 0x256fd2a0, 0x5268e236, 0xcc0c7795, 0xbb0b4703, 0x220216b9, 0x5505262f,
        0xc5ba3bbe, 0xb2bd0b28, 0x2bb45a92, 0x5cb36a04, 0xc2d7ffa7, 0xb5d0cf31, 0x2cd99e8b, 0x5bdeae1d),
      Pick(index & 15,
        0x9b64c2b0, 0xec63f226, 0x756aa39c, 0x026d930a, 0x9c0906a9, 0xeb0e363f, 0x72076785, 0x05005713,
        0x95bf4a82, 0xe2b87a14, 0x7bb12bae, 0x0cb61b38, 0x92d28e9b, 0xe5d5be0d, 0x7cdcefb7, 0x0bdbdf21),
      Pick(index & 15,
        0x86d3d2d4, 0xf1d4e242, 0x68ddb3f8, 0x1fda836e, 0x81be16cd, 0xf6b9265b, 0x6fb077e1, 0x18b74777,
        0x88085ae6, 0xff0f6a70, 0x66063bca, 0x11010b5c, 0x8f659eff, 0xf862ae69, 0x616bffd3, 0x166ccf45),
      Pick(index & 15,
        0xa00ae278, 0xd70dd2ee, 0x4e048354, 0x3903b3c2, 0xa7672661, 0xd06016f7, 0x4969474d, 0x3e6e77db,
        0xaed16a4a, 0xd9d65adc, 0x40df0b66, 0x37d83bf0, 0xa9bcae53, 0xdebb9ec5, 0x47b2cf7f, 0x30b5ffe9),
      Pick(index & 15,
        0xbdbdf21c, 0xcabac28a, 0x53b39330, 0x24b4a3a6, 0xbad03605, 0xcdd70693, 0x54de5729, 0x23d967bf,
        0xb3667a2e, 0xc4614ab8, 0x5d681b02, 0x2a6f2b94, 0xb40bbe37, 0xc30c8ea1, 0x5a05df1b, 0x2d02ef8d))
  }

  /** Exclusive or and the shift by one have names so that proofs can treat them as a whole. */
  function Xor(x: bv32, y: bv32): bv32 {
    x ^ y
  }

  function Half(x: bv32): bv32 {
    x >> 1
  }

  // ----- What the code computes -----

  function Index(crc: bv32, byte: bv8): bv8 {
    (Xor(crc, byte as bv32) & 0xff) as bv8
  }

  function Next(crc: bv32, byte: bv8): bv32 {
    Xor(Table(Index(crc, byte)), crc >> 8)
  }

  function Update(crc: bv32, data: seq<bv8>): bv32
    decreases |data|
  {
    if data == [] then crc else Update(Next(crc, data[0]), data[1..])
  }

  function Finalize(crc: bv32): bv32 {
    crc ^ 0xffffffff
  }

  function Calculate(data: seq<bv8>): bv32 {
    Finalize(Update(0xffffffff, data))
  }

  method UpdateAll(crc0: bv32, data: seq<bv8>) returns (crc: bv32)
    ensures crc == Update(crc0, data)
  {
    hide Table, Xor;
    crc := crc0;
    for i := 0 to |data|
      invariant Update(crc, data[i..]) == Update(crc0, data)
    {
      var rest := data[i..];
      crc := Xor(Table((Xor(crc, data[i] as bv32) & 0xff) as bv8), crc >> 8);
      assert rest[1..] == data[i + 1..];
    }
  }

  // ----- Division by the polynomial, one bit at a time -----

  function Taken(odd: bool): bv32 {
    if odd then POLYNOMIAL else 0
  }

  function Odd(x: bv32): bool {
    x & 1 == 1
  }

  /** A one that leaves at the low end takes the polynomial away. */
  function Step(crc: bv32): bv32 {
    Xor(Half(crc), Taken(Odd(crc)))
  }

  function Steps(crc: bv32, n: nat): bv32
    decreases n
  {
    if n == 0 then crc else Steps(Step(crc), n - 1)
  }

  function BitValue(bit: bool): bv32 {
    if bit then 1 else 0
  }

  /** The remainder of a message whose bits enter at the low end. */
  function Divide(crc: bv32, bits: seq<bool>): bv32
    decreases |bits|
  {
    if bits == [] then crc else Divide(Step(Xor(crc, BitValue(bits[0]))), bits[1..])
  }

  /** The n lowest bits, lowest first. */
  function Bits(x: bv32, n: nat): seq<bool>
    decreases n
  {
    if n == 0 then [] else [Odd(x)] + Bits(Half(x), n - 1)
  }

  function BitsOf(data: seq<bv8>): seq<bool> {
    if data == [] then [] else Bits(data[0] as bv32, 8) + BitsOf(data[1..])
  }

  /** x shifted right n times. */
  function ShiftRight(x: bv32, n: nat): bv32
    decreases n
  {
    if n == 0 then x else ShiftRight(Half(x), n - 1)
  }

  // ----- The table -----

  /** The step without a branch, a form in which all table entries can be compared at once. */
  function MaskedStep(crc: bv32): bv32 {
    (crc >> 1) ^ (POLYNOMIAL & (0 - (crc & 1)))
  }

  lemma MaskedStepSame(crc: bv32)
    ensures MaskedStep(crc) == Step(crc)
  {
    if crc & 1 == 1 {
      assert 0 - (crc & 1) == 0xffffffff;
    } else {
      assert crc & 1 == 0;
    }
  }

  function MaskedSteps8(crc: bv32): bv32 {
    MaskedStep(MaskedStep(MaskedStep(MaskedStep(MaskedStep(MaskedStep(MaskedStep(MaskedStep(crc))))))))
  }

  lemma StepsEight(crc: bv32)
    ensures Steps(crc, 8) == Step(Step(Step(Step(Step(Step(Step(Step(crc))))))))
  {
    hide Step;
    var c4 := Step(Step(Step(Step(crc))));
    assert Steps(crc, 8) == Steps(Step(crc), 7) == Steps(Step(Step(crc)), 6) == Steps(Step(Step(Step(crc))), 5) == Steps(c4, 4);
    assert Steps(c4, 4) == Steps(Step(c4), 3) == Steps(Step(Step(c4)), 2) == Steps(Step(Step(Step(c4))), 1);
  }

  lemma EightSteps(crc: bv32)
    ensures MaskedSteps8(crc) == Steps(crc, 8)
  {
    hide Step, MaskedStep;
    StepsEight(crc);
    var c1 := Step(crc);
    var c2 := Step(c1);
    var c3 := Step(c2);
    var c4 := Step(c3);
    var c5 := Step(c4);
    var c6 := Step(c5);
    var c7 := Step(c6);
    MaskedStepSame(crc); MaskedStepSame(c1); MaskedStepSame(c2); MaskedStepSame(c3);
    MaskedStepSame(c4); MaskedStepSame(c5); MaskedStepSame(c6); MaskedStepSame(c7);
  }

  // The sixteen rows of the table, one at a time.

  lemma Row0(index: bv8)
    requires index >> 4 == 0
    ensures Table(index) == MaskedSteps8(index as bv32)
  {
  }

  lemma Row1(index: bv8)
    requires index >> 4 == 1
    ensures Table(index) == MaskedSteps8(index as bv32)
  {
  }

  lemma Row2(index: bv8)
    requires index >> 4 == 2
    ensures Table(index) == MaskedSteps8(index as bv32)
  {
  }

  lemma Row3(index: bv8)
    requires index >> 4 == 3
    ensures Table(index) == MaskedSteps8(index as bv32)
  {
  }

  lemma Row4(index: bv8)
    requires index >> 4 == 4
    ensures Table(index) == MaskedSteps8(index as bv32)
  {
  }

  lemma Row5(index: bv8)
    requires index >> 4 == 5
    ensures Table(index) == MaskedSteps8(index as bv32)
  {
  }

  lemma Row6(index: bv8)
    requires index >> 4 == 6
    ensures Table(index) == MaskedSteps8(index as bv32)
  {
  }

  lemma Row7(index: bv8)
    requires index >> 4 == 7
    ensures Table(index) == MaskedSteps8(index as bv32)
  {
  }

  lemma Row8(index: bv8)
    requires index >> 4 == 8
    ensures Table(index) == MaskedSteps8(index as bv32)
  {
  }

  lemma Row9(index: bv8)
    requires index >> 4 == 9
    ensures Table(index) == MaskedSteps8(index as bv32)
  {
  }

  lemma Row10(index: bv8)
    requires index >> 4 == 10
    ensures Table(index) == MaskedSteps8(index as bv32)
  {
  }

  lemma Row11(index: bv8)
    requires index >> 4 == 11
    ensures Table(index) == MaskedSteps8(index as bv32)
  {
  }

  lemma Row12(index: bv8)
    requires index >> 4 == 12
    ensures Table(index) == MaskedSteps8(index as bv32)
  {
  }

  lemma Row13(index: bv8)
    requires index >> 4 == 13
    ensures Table(index) == MaskedSteps8(index as bv32)
  {
  }

  lemma Row14(index: bv8)
    requires index >> 4 == 14
    ensures Table(index) == MaskedSteps8(index as bv32)
  {
  }

  lemma Row15(index: bv8)
    requires index >> 4 == 15
    ensures Table(index) == MaskedSteps8(index as bv32)
  {
  }

  lemma TableIsMaskedSteps(index: bv8)
    ensures Table(index) == MaskedSteps8(index as bv32)
  {
    hide Table, MaskedSteps8;
    RowNumber(index);
    match index >> 4
    case 0 => Row0(index);
    case 1 => Row1(index);
    case 2 => Row2(index);
    case 3 => Row3(index);
    case 4 => Row4(index);
    case 5 => Row5(index);
    case 6 => Row6(index);
    case 7 => Row7(index);
    case 8 => Row8(index);
    case 9 => Row9(index);
    case 10 => Row10(index);
    case 11 => Row11(index);
    case 12 => Row12(index);
    case 13 => Row13(index);
    case 14 => Row14(index);
    case _ => Row15(index);
  }

  lemma RowNumber(index: bv8)
    ensures index >> 4 < 16
  {
  }

  /** Every table entry is the remainder of dividing its index, bit by bit. */
  lemma TableIsDivision(index: bv8)
    ensures Table(index) == Steps(index as bv32, 8)
  {
    hide Table, MaskedSteps8;
    TableIsMaskedSteps(index);
    EightSteps(index as bv32);
  }

  // ----- Steps are linear and lose nothing -----

  lemma LowBits(x: bv32, y: bv32)
    ensures Half(Xor(x, y)) == Xor(Half(x), Half(y))
    ensures Taken(Odd(Xor(x, y))) == Xor(Taken(Odd(x)), Taken(Odd(y)))
  {
  }

  lemma XorLaws(a: bv32, b: bv32, c: bv32)
    ensures Xor(Xor(a, b), c) == Xor(a, Xor(b, c))
    ensures Xor(a, b) == Xor(b, a)
  {
  }

  lemma Regroup(a: bv32, b: bv32, c: bv32, d: bv32)
    ensures Xor(Xor(a, b), Xor(c, d)) == Xor(Xor(a, c), Xor(b, d))
  {
    hide Xor;
    XorLaws(a, b, Xor(c, d));
    XorLaws(b, c, d);
    XorLaws(c, b, d);
    XorLaws(a, c, Xor(b, d));
  }

  lemma StepLinear(x: bv32, y: bv32)
    ensures Step(Xor(x, y)) == Xor(Step(x), Step(y))
  {
    hide Xor, Half, Taken, Odd;
    LowBits(x, y);
    Regroup(Half(x), Half(y), Taken(Odd(x)), Taken(Odd(y)));
  }

  lemma StepInjective(x: bv32, y: bv32)
    requires Step(x) == Step(y)
    ensures x == y
  {
  }

  lemma {:induction false} StepsLinear(x: bv32, y: bv32, n: nat)
    ensures Steps(Xor(x, y), n) == Xor(Steps(x, n), Steps(y, n))
    decreases n
  {
    hide Step, Xor;
    if n > 0 {
      StepLinear(x, y);
      StepsLinear(Step(x), Step(y), n - 1);
    }
  }

  lemma {:induction false} StepsInjective(x: bv32, y: bv32, n: nat)
    requires Steps(x, n) == Steps(y, n)
    ensures x == y
    decreases n
  {
    hide Step;
    if n > 0 {
      StepsInjective(Step(x), Step(y), n - 1);
      StepInjective(x, y);
    }
  }

  lemma StepEven(x: bv32)
    requires !Odd(x)
    ensures Step(x) == Half(x)
  {
  }

  lemma LowZeros(x: bv32)
    requires x & 0xff == 0
    ensures var x4 := Half(Half(Half(Half(x))));
            && !Odd(x) && !Odd(Half(x)) && !Odd(Half(Half(x))) && !Odd(Half(Half(Half(x))))
            && !Odd(x4) && !Odd(Half(x4)) && !Odd(Half(Half(x4))) && !Odd(Half(Half(Half(x4))))
            && Half(Half(Half(Half(x4)))) == x >> 8
  {
  }

  /** Zeros that leave at the low end take nothing away. */
  lemma StepsOfHigh(x: bv32)
    requires x & 0xff == 0
    ensures Steps(x, 8) == x >> 8
  {
    hide Step, Half, Odd;
    LowZeros(x);
    StepsEight(x);
    var x4 := Half(Half(Half(Half(x))));
    StepEven(x); StepEven(Half(x)); StepEven(Half(Half(x))); StepEven(Half(Half(Half(x))));
    StepEven(x4); StepEven(Half(x4)); StepEven(Half(Half(x4))); StepEven(Half(Half(Half(x4))));
  }

  lemma SplitLow(crc: bv32, byte: bv8)
    ensures var x := Xor(crc, byte as bv32);
            var low, high := Index(crc, byte) as bv32, x & 0xffffff00;
            x == Xor(low, high) && high & 0xff == 0 && high >> 8 == crc >> 8
  {
  }

  lemma NextIsSteps(crc: bv32, byte: bv8)
    ensures Next(crc, byte) == Steps(Xor(crc, byte as bv32), 8)
  {
    hide Table, Steps, Xor, Index;
    var high := Xor(crc, byte as bv32) & 0xffffff00;
    SplitLow(crc, byte);
    StepsLinear(Index(crc, byte) as bv32, high, 8);
    StepsOfHigh(high);
    TableIsDivision(Index(crc, byte));
  }

  // ----- The table-driven loop is the bitwise division -----

  lemma SplitLowest(crc: bv32, x: bv32)
    ensures var high := x & 0xfffffffe;
            Xor(crc, x) == Xor(Xor(crc, BitValue(Odd(x))), high) && !Odd(high) && Half(high) == Half(x)
  {
    assert x & 1 == BitValue(Odd(x));
    assert crc ^ x == (crc ^ (x & 1)) ^ (x & 0xfffffffe);
  }

  /** Bits above the lowest may as well enter a step later. */
  lemma EnterLater(crc: bv32, x: bv32)
    ensures Step(Xor(crc, x)) == Xor(Step(Xor(crc, BitValue(Odd(x)))), Half(x))
  {
    hide Step, Xor, Half, Odd, BitValue;
    var high := x & 0xfffffffe;
    SplitLowest(crc, x);
    StepLinear(Xor(crc, BitValue(Odd(x))), high);
    StepEven(high);
  }

  lemma DivideOne(crc: bv32, bit: bool, rest: seq<bool>)
    ensures Divide(crc, [bit] + rest) == Divide(Step(Xor(crc, BitValue(bit))), rest)
  {
    hide Step, BitValue, Xor;
    assert ([bit] + rest)[1..] == rest;
  }

  lemma XorZero(x: bv32)
    ensures Xor(x, 0) == x
  {
  }

  lemma {:induction false} DivideBits(crc: bv32, x: bv32, n: nat, rest: seq<bool>)
    requires ShiftRight(x, n) == 0
    ensures Divide(crc, Bits(x, n) + rest) == Divide(Steps(Xor(crc, x), n), rest)
    decreases n
  {
    hide Step, BitValue, Divide, Xor, Half, Odd;
    if n == 0 {
      XorZero(crc);
      assert Bits(x, n) + rest == rest;
    } else {
      assert Bits(x, n) + rest == [Odd(x)] + (Bits(Half(x), n - 1) + rest);
      DivideOne(crc, Odd(x), Bits(Half(x), n - 1) + rest);
      DivideBits(Step(Xor(crc, BitValue(Odd(x)))), Half(x), n - 1, rest);
      EnterLater(crc, x);
    }
  }

  lemma ShiftEight(x: bv32)
    ensures ShiftRight(x, 8) == x >> 8
  {
    var x4 := Half(Half(Half(Half(x))));
    assert ShiftRight(x, 8) == ShiftRight(Half(x), 7) == ShiftRight(Half(Half(x)), 6) == ShiftRight(Half(Half(Half(x))), 5)
        == ShiftRight(x4, 4);
    assert ShiftRight(x4, 4) == ShiftRight(Half(x4), 3) == ShiftRight(Half(Half(x4)), 2) == ShiftRight(Half(Half(Half(x4))), 1)
        == Half(Half(Half(Half(x4))));
  }

  lemma DivideNone(crc: bv32)
    ensures Divide(crc, []) == crc
  {
  }

  /** Table-driven update computes the remainder of the message, bit by bit. */
  lemma {:induction false} UpdateIsDivision(crc: bv32, data: seq<bv8>)
    ensures Update(crc, data) == Divide(crc, BitsOf(data))
    decreases |data|
  {
    hide Next, Steps, Divide, Bits, Xor;
    if data != [] {
      UpdateIsDivision(Next(crc, data[0]), data[1..]);
      NextIsSteps(crc, data[0]);
      ShiftEight(data[0] as bv32);
      DivideBits(crc, data[0] as bv32, 8, BitsOf(data[1..]));
    } else {
      DivideNone(crc);
    }
  }

  /** Updating in pieces is updating with the whole. */
  lemma {:induction false} UpdateConcat(crc: bv32, a: seq<bv8>, b: seq<bv8>)
    ensures Update(crc, a + b) == Update(Update(crc, a), b)
    decreases |a|
  {
    hide Next;
    if a == [] {
      assert a + b == b;
    } else {
      UpdateConcat(Next(crc, a[0]), a[1..], b);
      assert (a + b)[1..] == a[1..] + b;
    }
  }

  // ----- What the checksum detects -----

  lemma NextInjective(x: bv32, y: bv32, byte: bv8)
    requires Next(x, byte) == Next(y, byte)
    ensures x == y
  {
    hide Next, Steps, Xor;
    NextIsSteps(x, byte);
    NextIsSteps(y, byte);
    StepsInjective(Xor(x, byte as bv32), Xor(y, byte as bv32), 8);
    XorCancels(x, y, byte as bv32);
  }

  lemma XorCancels(x: bv32, y: bv32, z: bv32)
    requires Xor(x, z) == Xor(y, z)
    ensures x == y
  {
  }

  /** Different registers stay different whatever follows. */
  lemma {:induction false} UpdateInjective(x: bv32, y: bv32, data: seq<bv8>)
    requires Update(x, data) == Update(y, data)
    ensures x == y
    decreases |data|
  {
    hide Next;
    if data != [] {
      UpdateInjective(Next(x, data[0]), Next(y, data[0]), data[1..]);
      NextInjective(x, y, data[0]);
    }
  }

  lemma {:induction false} ShiftRightOf0(n: nat)
    ensures ShiftRight(0, n) == 0
    decreases n
  {
    if n > 0 {
      assert Half(0) == 0;
      ShiftRightOf0(n - 1);
    }
  }

  function And(x: bv32, y: bv32): bv32 {
    x & y
  }

  lemma HalfOfAnd(x: bv32, y: bv32)
    ensures Half(And(x, y)) == And(Half(x), Half(y))
  {
  }

  lemma {:induction false} ShiftRightOfAnd(x: bv32, y: bv32, n: nat)
    ensures ShiftRight(And(x, y), n) == And(ShiftRight(x, n), ShiftRight(y, n))
    decreases n
  {
    hide And, Half;
    if n > 0 {
      HalfOfAnd(x, y);
      ShiftRightOfAnd(Half(x), Half(y), n - 1);
    }
  }

  lemma {:induction false} ShiftRightSum(x: bv32, m: nat, n: nat)
    ensures ShiftRight(x, m + n) == ShiftRight(ShiftRight(x, m), n)
    decreases m
  {
    hide Half;
    if m > 0 {
      ShiftRightSum(Half(x), m - 1, n);
    }
  }

  /** A number with its top bit set is not shifted out by fewer than 32 places. */
  lemma TopBitStays(x: bv32, n: nat)
    requires n <= 31 && ShiftRight(x, n) == 0
    ensures x & 0x80000000 == 0
  {
    hide ShiftRight, Half;
    var top: bv32 := 0x80000000;
    ShiftRightOfAnd(x, top, n);
    assert And(ShiftRight(x, n), ShiftRight(top, n)) == 0;
    if x & top != 0 {
      assert And(x, top) == top;
      ShiftRightSum(top, n, 31 - n);
      ShiftRightOf0(31 - n);
      TopBit31();
    }
  }

  lemma TopBit31()
    ensures ShiftRight(0x80000000, 31) == 1
  {
    hide ShiftRight;
    ShiftEight(0x80000000);
    ShiftEight(0x800000);
    ShiftEight(0x8000);
    ShiftRightSum(0x80000000, 8, 23);
    ShiftRightSum(0x800000, 8, 15);
    ShiftRightSum(0x8000, 8, 7);
    ShiftSeven();
  }

  lemma ShiftSeven()
    ensures ShiftRight(0x80, 7) == 1
  {
  }

  lemma PolynomialHasTopBit(x: bv32)
    requires Half(x) & 0x80000000 == 0
    ensures Step(x) & 0x80000000 == 0 <==> !Odd(x)
  {
  }

  lemma HalfHasNoTopBit(x: bv32)
    ensures Half(x) & 0x80000000 == 0
  {
  }

  /** If the last bit of a difference has not left, n more steps cannot have cancelled it. */
  lemma DifferenceShrinks(z: bv32, a: bv32, n: nat)
    requires n <= 31 && ShiftRight(Step(Xor(z, a)), n) == 0 && (a == 0 || a == 1)
    ensures ShiftRight(z, n + 1) == 0
  {
    hide Step, Xor, Half, Odd;
    TopBitStays(Step(Xor(z, a)), n);
    HalfHasNoTopBit(Xor(z, a));
    PolynomialHasTopBit(Xor(z, a));
    StepEven(Xor(z, a));
    HalfIgnoresLowest(z, a);
  }

  lemma HalfIgnoresLowest(z: bv32, a: bv32)
    requires a == 0 || a == 1
    ensures Half(Xor(z, a)) == Half(z)
  {
  }

  lemma RegroupStep(x: bv32, y: bv32, a: bv32, b: bv32)
    ensures Xor(Step(Xor(x, a)), Step(Xor(y, b))) == Step(Xor(Xor(x, y), Xor(a, b)))
  {
    hide Step, Xor;
    StepLinear(Xor(x, a), Xor(y, b));
    Regroup(x, y, a, b);
  }

  lemma BitsXor(p: bool, q: bool)
    ensures Xor(BitValue(p), BitValue(q)) == BitValue(p != q)
  {
  }

  /** If n bits make up for a difference of registers, the difference lies in the n lowest bits. */
  lemma {:induction false} DifferenceIsLow(x: bv32, y: bv32, a: seq<bool>, b: seq<bool>)
    requires |a| == |b| <= 32 && Divide(x, a) == Divide(y, b)
    ensures ShiftRight(Xor(x, y), |a|) == 0
    decreases |a|
  {
    hide Step, Xor, BitValue, ShiftRight;
    if a == [] {
      SelfXor(x);
    } else {
      DifferenceIsLow(Step(Xor(x, BitValue(a[0]))), Step(Xor(y, BitValue(b[0]))), a[1..], b[1..]);
      RegroupStep(x, y, BitValue(a[0]), BitValue(b[0]));
      BitsXor(a[0], b[0]);
      BitIsSmall(a[0] != b[0]);
      DifferenceShrinks(Xor(x, y), BitValue(a[0] != b[0]), |a| - 1);
    }
  }

  lemma BitIsSmall(p: bool)
    ensures BitValue(p) == 0 || BitValue(p) == 1
  {
  }

  lemma SelfXor(x: bv32)
    ensures ShiftRight(Xor(x, x), 0) == 0
  {
  }

  /** From one register, two messages of the same length up to 32 bits have different remainders. */
  lemma {:induction false} ShortMessagesDiffer(x: bv32, a: seq<bool>, b: seq<bool>)
    requires |a| == |b| <= 32 && Divide(x, a) == Divide(x, b)
    ensures a == b
    decreases |a|
  {
    hide Step, Xor, BitValue, ShiftRight;
    if a != [] {
      if a[0] != b[0] {
        DifferenceIsLow(Step(Xor(x, BitValue(a[0]))), Step(Xor(x, BitValue(b[0]))), a[1..], b[1..]);
        RegroupStep(x, x, BitValue(a[0]), BitValue(b[0]));
        BitsXor(a[0], b[0]);
        FirstDifferenceStays(x, |a| - 1);
      } else {
        ShortMessagesDiffer(Step(Xor(x, BitValue(a[0]))), a[1..], b[1..]);
        assert a == [a[0]] + a[1..] && b == [b[0]] + b[1..];
      }
    }
  }

  lemma FirstDifferenceStays(x: bv32, n: nat)
    requires n <= 31
    ensures ShiftRight(Step(Xor(Xor(x, x), BitValue(true))), n) != 0
  {
    hide ShiftRight;
    var d := Step(Xor(Xor(x, x), BitValue(true)));
    assert d == POLYNOMIAL;
    if ShiftRight(d, n) == 0 {
      TopBitStays(d, n);
    }
  }

  lemma {:induction false} BitsInjective(x: bv32, y: bv32, n: nat)
    requires ShiftRight(x, n) == 0 && ShiftRight(y, n) == 0 && Bits(x, n) == Bits(y, n)
    ensures x == y
    decreases n
  {
    hide Half, Odd;
    if n > 0 {
      assert Bits(x, n)[0] == Bits(y, n)[0];
      assert Bits(Half(x), n - 1) == Bits(x, n)[1..] == Bits(y, n)[1..] == Bits(Half(y), n - 1);
      BitsInjective(Half(x), Half(y), n - 1);
      HalfAndOdd(x, y);
    }
  }

  lemma HalfAndOdd(x: bv32, y: bv32)
    requires Half(x) == Half(y) && Odd(x) == Odd(y)
    ensures x == y
  {
  }

  lemma {:induction false} BitsLength(x: bv32, n: nat)
    ensures |Bits(x, n)| == n
    decreases n
  {
    if n > 0 {
      BitsLength(Half(x), n - 1);
    }
  }

  lemma {:induction false} BitsOfInjective(a: seq<bv8>, b: seq<bv8>)
    requires |a| == |b| && BitsOf(a) == BitsOf(b)
    ensures a == b
  {
    hide Bits, ShiftRight;
    if a != [] {
      var x, y := Bits(a[0] as bv32, 8), Bits(b[0] as bv32, 8);
      BitsLength(a[0] as bv32, 8);
      BitsLength(b[0] as bv32, 8);
      assert x == BitsOf(a)[..8] == BitsOf(b)[..8] == y;
      assert BitsOf(a[1..]) == BitsOf(a)[8..] == BitsOf(b)[8..] == BitsOf(b[1..]);
      BitsOfInjective(a[1..], b[1..]);
      ShiftEight(a[0] as bv32);
      ShiftEight(b[0] as bv32);
      BitsInjective(a[0] as bv32, b[0] as bv32, 8);
      assert a == [a[0]] + a[1..] && b == [b[0]] + b[1..];
    }
  }

  lemma {:induction false} BitsOfLength(data: seq<bv8>)
    ensures |BitsOf(data)| == 8 * |data|
  {
    hide Bits;
    if data != [] {
      BitsLength(data[0] as bv32, 8);
      BitsOfLength(data[1..]);
    }
  }

  lemma FinalizeInjective(x: bv32, y: bv32)
    ensures Finalize(x) == Finalize(y) <==> x == y
  {
  }

  /** Buffers of the same length that differ only within four consecutive bytes have different checksums. */
  lemma BurstDetected(head: seq<bv8>, a: seq<bv8>, b: seq<bv8>, tail: seq<bv8>)
    requires |a| == |b| <= 4
    ensures Calculate(head + a + tail) == Calculate(head + b + tail) <==> a == b
  {
    hide Update, Divide, BitsOf, Finalize;
    var crc := Update(0xffffffff, head);
    UpdateConcat(0xffffffff, head, a);
    UpdateConcat(0xffffffff, head, b);
    UpdateConcat(0xffffffff, head + a, tail);
    UpdateConcat(0xffffffff, head + b, tail);
    FinalizeInjective(Update(0xffffffff, head + a + tail), Update(0xffffffff, head + b + tail));
    if Calculate(head + a + tail) == Calculate(head + b + tail) {
      UpdateInjective(Update(crc, a), Update(crc, b), tail);
      UpdateIsDivision(crc, a);
      UpdateIsDivision(crc, b);
      BitsOfLength(a);
      BitsOfLength(b);
      ShortMessagesDiffer(crc, BitsOf(a), BitsOf(b));
      BitsOfInjective(a, b);
    }
  }

  /** The stored checksum is the complement of the remainder of the message, from all ones. */
  lemma CalculateIsDivision(data: seq<bv8>)
    ensures Calculate(data) == Divide(0xffffffff, BitsOf(data)) ^ 0xffffffff
  {
    hide Update, Divide, BitsOf;
    UpdateIsDivision(0xffffffff, data);
  }

  lemma StepExact(crc: bv32)
    ensures Step(crc) == if crc & 1 == 1 then (crc >> 1) ^ 0xedb88320 else crc >> 1
  {
    XorZero(Half(crc));
  }

  lemma XorExact(x: bv32, y: bv32)
    ensures Xor(x, y) == x ^ y
  {
  }

  /** One bit of the division: the bit is added to the register, and a one that leaves takes the polynomial away. */
  lemma BitEnters(crc: bv32, bit: bool, rest: seq<bool>)
    ensures var entered := crc ^ if bit then 1 else 0;
            Divide(crc, [bit] + rest) ==
            if entered & 1 == 1 then Divide((entered >> 1) ^ 0xedb88320, rest) else Divide(entered >> 1, rest)
    ensures Divide(crc, []) == crc
  {
    hide Divide, Step, Xor;
    DivideOne(crc, bit, rest);
    DivideNone(crc);
    XorExact(crc, BitValue(bit));
    StepExact(Xor(crc, BitValue(bit)));
  }

  lemma TableEntries()
    ensures Table(0x01) == 0x77073096
    ensures Table(0x19) == 0x646ba8c0
    ensures Table(0x58) == 0x65b0d9c6
    ensures Table(0x69) == 0x346ed9fc
    ensures Table(0x7a) == 0xb0d09822
    ensures Table(0xa9) == 0xaf0a1b4c
    ensures Table(0xce) == 0x7cdcefb7
    ensures Table(0xd5) == 0xf6b9265b
  {
  }

  lemma NextByte(crc: bv32, data: seq<bv8>, entry: bv32)
    requires data != [] && Table(((crc ^ (data[0] as bv32)) & 0xff) as bv8) == entry
    ensures Update(crc, data) == Update(entry ^ (crc >> 8), data[1..])
  {
    hide Table;
  }

  lemma UpdateNothing(crc: bv32, data: seq<bv8>)
    requires data == []
    ensures Update(crc, data) == crc
  {
  }

  /** The check value of CRC-32: the digits from 1 to 9 give 0xCBF43926. */
  lemma CheckValue()
    ensures Calculate([0x31, 0x32, 0x33, 0x34, 0x35, 0x36, 0x37, 0x38, 0x39]) == 0xcbf43926
  {
    hide Update, Table;
    TableEntries();
    var d: seq<bv8> := [0x31, 0x32, 0x33, 0x34, 0x35, 0x36, 0x37, 0x38, 0x39];
    NextByte(0xffffffff, d[0..], 0x7cdcefb7);
    assert d[0..][1..] == d[1..];
    NextByte(0x7c231048, d[1..], 0xb0d09822);
    assert d[1..][1..] == d[2..];
    NextByte(0xb0acbb32, d[2..], 0x77073096);
    assert d[2..][1..] == d[3..];
    NextByte(0x77b79c2d, d[3..], 0x646ba8c0);
    assert d[3..][1..] == d[4..];
    NextByte(0x641c1f5c, d[4..], 0x346ed9fc);
    assert d[4..][1..] == d[5..];
    NextByte(0x340ac5e3, d[5..], 0xf6b9265b);
    assert d[5..][1..] == d[6..];
    NextByte(0xf68d2c9e, d[6..], 0xaf0a1b4c);
    assert d[6..][1..] == d[7..];
    NextByte(0xaffc9660, d[7..], 0x65b0d9c6);
    assert d[7..][1..] == d[8..];
    NextByte(0x651f2550, d[8..], 0x346ed9fc);
    UpdateNothing(0x340bc6d9, d[8..][1..]);
  }
}
