// What the preset of CRC-16/Modbus is for (src/anymodbus/crc.py): the check of a message is its remainder with ones
// added into its first sixteen bits, so that bytes of zero put in front of a frame do not pass.
module CrcPreset {
  import opened Bits
  import opened Crc
  import opened DoubleErrors

  // ----- The preset is a message -----

  function ZeroBytes(n: nat): (r: seq<byte>)
    ensures |r| == n && forall i :: 0 <= i < n ==> r[i] == 0
  {
    seq(n, _ => 0)
  }

  lemma {:induction false} DivideZeros(c: nat, n: nat)
    ensures Divide(c, ZeroBytes(n)) == ShiftN(c, 8 * n)
    decreases n
  {
    if n > 0 {
      XorSelf(c);
      DivideZeros(ShiftN(c, 8), n - 1);
      assert ZeroBytes(n)[1..] == ZeroBytes(n - 1);
      ShiftNSum(c, 8, 8 * (n - 1));
    }
  }

  lemma {:induction false} FlipNothing(x: seq<byte>)
    ensures FlipBits(x, ZeroBytes(|x|)) == x
  {
    if x != [] {
      XorSelf(x[0]);
      FlipNothing(x[1..]);
      assert ZeroBytes(|x|)[1..] == ZeroBytes(|x[1..]|);
    }
  }

  // The first two bytes inverted, and an empty register instead of the preset.
  lemma PresetInverts(data: seq<byte>)
    requires |data| >= 2
    ensures Xor(data[0], 0xFF) < 256 && Xor(data[1], 0xFF) < 256
    ensures Crc16(data) == Divide(0, [Xor(data[0], 0xFF), Xor(data[1], 0xFF)] + data[2..])
  {
    hide Xor, ShiftN, FlipBits;
    XorWord(data[0], 0xFF);
    XorWord(data[1], 0xFF);
    var ones := [0xFF, 0xFF] + ZeroBytes(|data| - 2);
    DivideConcat(0xFFFF, [0xFF, 0xFF], ZeroBytes(|data| - 2));
    TwoByteResidue(0xFFFF, 0xFF, 0xFF);
    DivideZeros(0, |data| - 2);
    ShiftNWord(0, 8 * (|data| - 2));
    assert Divide(0xFFFF, ones) == 0;
    DivideXor(0xFFFF, 0xFFFF, data, ones);
    XorSelf(0xFFFF);
    XorSelf(Crc16(data));
    FirstTwoFlipped(data);
  }

  lemma FirstTwoFlipped(data: seq<byte>)
    requires |data| >= 2 && Xor(data[0], 0xFF) < 256 && Xor(data[1], 0xFF) < 256
    ensures FlipBits(data, [0xFF, 0xFF] + ZeroBytes(|data| - 2))
            == [Xor(data[0], 0xFF), Xor(data[1], 0xFF)] + data[2..]
  {
    hide Xor;
    var ones := [0xFF, 0xFF] + ZeroBytes(|data| - 2);
    assert ones[1..][1..] == ZeroBytes(|data[1..][1..]|);
    FlipNothing(data[1..][1..]);
    assert data[1..][1..] == data[2..];
    assert FlipBits(data[1..], ones[1..]) == [Xor(data[1], 0xFF)] + data[2..];
  }

  // ----- The order of the preset -----

  // One step added to the register itself: multiplication by x + 1.
  function Plus(c: nat, n: nat): nat { Xor(ShiftN(c, n), c) }

  // (x + 1)^15 is the preset: all of its coefficients are odd.
  lemma PresetIsPower()
    ensures Plus(Plus(Plus(Plus(0x8000, 1), 2), 4), 8) == 0xFFFF
  {
    hide Plus, Pow2;
    Pow2Values();
    PlusLow(1, 15, 1);
    PlusLow(3, 14, 2);
    PlusLow(15, 12, 4);
    PlusLow(255, 8, 8);
  }

  lemma Pow2Values()
    ensures Pow2(15) == 0x8000 && Pow2(14) == 0x4000 && Pow2(12) == 0x1000 && Pow2(10) == 0x400 && Pow2(8) == 0x100
    ensures Pow2(0) == 1 && Pow2(4) == 16 && Pow2(2) == 4 && Pow2(1) == 2
  {
    Pow2Thirteen();
    assert Pow2(13) == 2 * Pow2(12) && Pow2(12) == 4 * Pow2(10) && Pow2(10) == 4 * Pow2(8) && Pow2(8) == 16 * Pow2(4);
    assert Pow2(15) == 2 * Pow2(14) == 4 * Pow2(13) && Pow2(4) == 4 * Pow2(2) && Pow2(2) == 2 * Pow2(1);
  }

  // A register whose low bits are zero is only moved down, and does not overlap itself.
  lemma PlusLow(high: nat, zeros: nat, n: nat)
    requires n <= zeros && high < Pow2(n)
    ensures Plus(high * Pow2(zeros), n) == (high * Pow2(n) + high) * Pow2(zeros - n)
  {
    hide Xor, ShiftN, Pow2;
    var p, q := Pow2(zeros - n), Pow2(n);
    Pow2Splits(zeros - n, n);
    Regrouped(high, p, q);
    ShiftZeros(high * p, n);
    XorScaled(high, high * q, zeros - n);
    XorCommutes(high, high * q);
    XorDisjoint(high, high, n);
  }

  lemma Regrouped(x: nat, y: nat, z: nat)
    ensures x * (y * z) == x * y * z == x * z * y
  {}

  lemma {:induction false} Pow2Splits(a: nat, b: nat)
    ensures Pow2(a + b) == Pow2(a) * Pow2(b)
    decreases b
  {
    if b > 0 {
      Pow2Splits(a, b - 1);
      DoubledProduct(Pow2(a), Pow2(b - 1));
    }
  }

  lemma PlusShifted(c: nat, n: nat, m: nat)
    ensures ShiftN(Plus(c, n), m) == Plus(ShiftN(c, m), n)
  {
    hide Xor, ShiftN;
    ShiftNXor(ShiftN(c, n), c, m);
    ShiftNSum(c, n, m);
    ShiftNSum(c, m, n);
  }

  // On the multiples of x + 1, adding a step is fifteen steps: x^15 = x + 1.
  lemma PlusWord(i: nat)
    ensures Plus(Word(i), 1) == Word(i + 15)
  {
    hide Xor, ShiftN, Out, Word;
    StepWord(i);
    LateWords();
    WordSum(15, i);
    WordSum(1, i);
    WordSum(0, i);
    WordSum(i, 1);
    ShiftNXor(Word(1), Word(0), i);
  }

  lemma StepWord(i: nat)
    ensures ShiftN(Word(i), 1) == Word(i + 1)
  {
    WordSum(i, 1);
  }

  lemma PlusTwice(c: nat, n: nat)
    ensures Plus(Plus(c, n), n) == Plus(c, 2 * n)
  {
    hide Xor, ShiftN;
    var d := ShiftN(c, n);
    ShiftNXor(d, c, n);
    ShiftNSum(c, n, n);
    XorAssociates(Xor(ShiftN(d, n), d), d, c);
    XorAssociates(ShiftN(d, n), d, d);
    XorSelf(d);
    XorSelf(ShiftN(d, n));
  }

  lemma PlusWords(i: nat)
    ensures Plus(Word(i), 2) == Word(i + 30) && Plus(Word(i), 4) == Word(i + 60) && Plus(Word(i), 8) == Word(i + 120)
  {
    hide Plus, Word;
    PlusTwo(i);
    PlusFour(i);
    PlusFour(i + 60);
    PlusTwice(Word(i), 4);
  }

  lemma PlusTwo(i: nat)
    ensures Plus(Word(i), 2) == Word(i + 30)
  {
    hide Plus, Word;
    PlusWord(i);
    PlusWord(i + 15);
    PlusTwice(Word(i), 1);
  }

  lemma PlusFour(i: nat)
    ensures Plus(Word(i), 4) == Word(i + 60)
  {
    hide Plus, Word;
    PlusTwo(i);
    PlusTwo(i + 30);
    PlusTwice(Word(i), 2);
  }

  // So the preset lies on the one long cycle of the multiples of x + 1.
  lemma PresetIsWord()
    ensures ShiftN(0xFFFF, 15) == Word(210)
  {
    hide Plus, Word, ShiftN;
    PresetIsPower();
    SeedIsPlus();
    var a := Plus(0x8000, 1);
    var b := Plus(a, 2);
    PlusShifted(a, 2, 15);
    PlusShifted(b, 4, 15);
    PlusShifted(Plus(b, 4), 8, 15);
    PlusWords(0);
    PlusWords(30);
    PlusWords(90);
  }

  lemma SeedIsPlus()
    ensures ShiftN(Plus(0x8000, 1), 15) == Word(0)
  {
    hide Xor, Pow2;
    Pow2Values();
    PlusShifted(0x8000, 1, 15);
    ShiftZeros(1, 15);
    SeedIsStep();
    assert ShiftN(1, 1) == ShiftN(Shift(1), 0);
  }

  // Two registers are as far apart after any number of steps: no step forgets anything.
  lemma StepsAreInjective(c: nat, d: nat, n: nat)
    requires c < 0x10000 && d < 0x10000 && ShiftN(c, n) == ShiftN(d, n)
    ensures c == d
  {
    hide Xor, ShiftN;
    ShiftNXor(c, d, n);
    XorSelf(ShiftN(c, n));
    XorWord(c, d);
    ShiftNWord(Xor(c, d), n);
    XorZero(c, d);
  }

  // The preset comes back exactly after multiples of 32767 steps.
  lemma OrderOfPreset(d: nat)
    ensures ShiftN(0xFFFF, d) == 0xFFFF <==> d % 32767 == 0
  {
    hide ShiftN, Period, Word;
    PresetIsWord();
    PeriodsAreMultiples(d);
    ShiftNSum(0xFFFF, d, 15);
    ShiftNSum(0xFFFF, 15, d);
    WordSum(210, d);
    ShiftNWord(0xFFFF, d);
    assert ShiftN(ShiftN(0xFFFF, d), 15) == Word(210 + d);
    if ShiftN(0xFFFF, d) == 0xFFFF {
      WordComesBack(d);
    }
    if Period(d) {
      PeriodOfWords(d);
      StepsAreInjective(ShiftN(0xFFFF, d), 0xFFFF, 15);
    }
  }

  lemma WordComesBack(d: nat)
    requires Word(210 + d) == Word(210)
    ensures Period(d)
  {
    WordSum(d, 210);
    WordSum(0, 210);
    SeedWords(d);
    StepsAreInjective(Word(d), Word(0), 210);
    forall t: nat
      ensures Repeats(t, d)
    {
      WordSum(d, t);
      WordSum(0, t);
    }
  }

  lemma SeedWords(d: nat)
    ensures Word(d) < 0x10000 && Word(0) < 0x10000
  {
    ShiftNWord(SEED, d);
  }

  lemma PeriodOfWords(d: nat)
    requires Period(d)
    ensures Word(210 + d) == Word(210)
  {
    PeriodGivesReturn(d);
    // The seed is the difference of the first two registers of a single bit.
    SeedIsStep();
    ShiftNXor(Shift(1), 1, d);
    ShiftNSum(1, 1, d);
    ShiftNSum(1, d, 1);
    assert ShiftN(1, 1) == ShiftN(Shift(1), 0);
    assert Word(d) == Word(0);
    WordSum(d, 210);
    WordSum(0, 210);
  }

  // Bytes of zero put in front of a frame, however many, pass the check exactly in multiples of 32767.
  lemma LeadingZerosUndetectedIff(frame: seq<byte>, n: nat)
    requires VerifyCrc(frame)
    ensures VerifyCrc(ZeroBytes(n) + frame) <==> n % 32767 == 0
  {
    DivideConcat(0xFFFF, ZeroBytes(n), frame);
    DivideZeros(0xFFFF, n);
    OrderOfPreset(8 * n);
    EightTimes(n);
    var c := ShiftN(0xFFFF, 8 * n);
    ShiftNWord(0xFFFF, 8 * n);
    if Divide(c, frame) == 0 {
      DividesAlike(c, 0xFFFF, frame);
    }
  }

  lemma EightTimes(n: nat)
    ensures (8 * n) % 32767 == 0 <==> n % 32767 == 0
  {
    if (8 * n) % 32767 == 0 {
      var k := 8 * n / 32767;
      assert 8 * n == 32767 * k;
      assert k == 8 * (4096 * k - n);
    }
  }

  lemma {:induction false} DividesAlike(c: nat, d: nat, data: seq<byte>)
    requires c < 0x10000 && d < 0x10000 && Divide(c, data) == Divide(d, data)
    ensures c == d
    decreases |data|
  {
    if data != [] {
      XorWord(c, data[0]);
      XorWord(d, data[0]);
      ShiftNWord(Xor(c, data[0]), 8);
      ShiftNWord(Xor(d, data[0]), 8);
      DividesAlike(ShiftN(Xor(c, data[0]), 8), ShiftN(Xor(d, data[0]), 8), data[1..]);
      StepsAreInjective(Xor(c, data[0]), Xor(d, data[0]), 8);
      XorAssociates(c, data[0], data[0]);
      XorAssociates(d, data[0], data[0]);
      XorSelf(data[0]);
      XorSelf(c);
      XorSelf(d);
    }
  }

  // Fewer than that never pass.
  lemma LeadingZerosDetected(frame: seq<byte>, n: nat)
    requires VerifyCrc(frame) && 0 < n < 32767
    ensures !VerifyCrc(ZeroBytes(n) + frame)
  {
    hide VerifyCrc;
    LeadingZerosUndetectedIff(frame, n);
  }

  // ----- Known values -----

  // A step of the division in plain arithmetic: bits 15, 13 and 0 of the polynomial.
  function Step(c: nat): nat {
    if c % 2 == 0 then c / 2
    else
      var x := c / 2;
      (x + 0x8000) + (if x / 0x2000 % 2 == 1 then -0x2000 else 0x2000) + if x % 2 == 1 then -1 else 1
  }

  lemma StepIsShift(c: nat)
    requires c < 0x10000
    ensures Shift(c) == Step(c) < 0x10000
  {
    if c % 2 == 1 {
      PolyAdded(c / 2);
    }
  }

  lemma PolyAdded(x: nat)
    requires x < 0x8000
    ensures Xor(x, 0xA001)
            == (x + 0x8000) + (if x / 0x2000 % 2 == 1 then -0x2000 else 0x2000) + if x % 2 == 1 then -1 else 1
  {
    var y := x / 2;
    var high, low := y / 0x1000, y % 0x1000;
    XorHalves(x, 0xA001);
    HighAdded(high, low);
    hide Xor;
    assert x / 0x2000 == high;
  }

  lemma HighAdded(high: nat, low: nat)
    requires high < 4 && low < 0x1000
    ensures Xor(0x1000 * high + low, 0x5000) == 0x1000 * (if high % 2 == 1 then high + 3 else high + 5) + low
  {
    hide Xor;
    Pow2Values();
    XorDisjoint(high, low, 12);
    XorAssociates(0x1000 * high, low, 0x5000);
    XorCommutes(low, 0x5000);
    XorDisjoint(5, low, 12);
    XorAssociates(0x1000 * high, 0x5000, low);
    XorScaled(high, 5, 12);
    AddFive(high);
    XorDisjoint(if high % 2 == 1 then high + 3 else high + 5, low, 12);
  }

  lemma AddFive(high: nat)
    requires high < 4
    ensures Xor(high, 5) == if high % 2 == 1 then high + 3 else high + 5
  {
    assert Xor(high, 5) == BitValue(high % 2 == 0) + 2 * Xor(high / 2, 2);
    assert Xor(high / 2, 2) == BitValue(high / 2 == 1) + 2 * Xor(0, 1);
    XorSelf(1);
  }

  function Step2(c: nat): nat
    requires c < 0x10000
  {
    StepIsShift(c);
    Step(Step(c))
  }

  lemma Steps2(c: nat)
    requires c < 0x10000
    ensures ShiftN(c, 2) == Step2(c) < 0x10000
  {
    hide Shift;
    StepIsShift(c);
    StepIsShift(Step(c));
    assert ShiftN(c, 2) == ShiftN(Shift(c), 1) == ShiftN(Shift(Shift(c)), 0);
  }

  // A byte of zeros fed into a register takes it through these.
  lemma ByteOfSteps(c: nat, c2: nat, c4: nat, c6: nat, c8: nat)
    requires c < 0x10000 && c2 == Step2(c) && c2 < 0x10000 && c4 == Step2(c2) && c4 < 0x10000
    requires c6 == Step2(c4) && c6 < 0x10000 && c8 == Step2(c6)
    ensures ShiftN(c, 8) == c8
  {
    hide Step2, ShiftN;
    Steps2(c);
    Steps2(c2);
    Steps2(c4);
    Steps2(c6);
    ShiftNSum(c, 2, 2);
    ShiftNSum(c, 4, 2);
    ShiftNSum(c, 6, 2);
  }

  // Two bytes fed into an empty register are one word shifted through.
  lemma TwoAtOnce(a: byte, b: byte)
    ensures Divide(0, [a, b]) == ShiftN(ShiftN(a as nat + 256 * b as nat, 8), 8)
  {
    hide Xor, ShiftN;
    var c := ShiftN(a, 8);
    XorSelf(a);
    assert [a, b][1..] == [b] && [b][1..] == [];
    assert Divide(0, [a, b]) == Divide(c, [b]) == ShiftN(Xor(c, b), 8);
    Pow2Values();
    ShiftZeros(b, 8);
    XorByte(b, a);
    XorCommutes(c, b);
    ShiftNXor(256 * b as nat, a, 8);
  }

  lemma {:induction false} Inverted(b: nat, n: nat)
    requires b < Pow2(n)
    ensures Xor(b, Pow2(n) - 1) == Pow2(n) - 1 - b
    decreases n
  {
    if n > 0 {
      Inverted(b / 2, n - 1);
      XorHalves(b, Pow2(n) - 1);
    }
  }

  lemma InvertedByte(b: byte)
    ensures Xor(b, 0xFF) == 255 - b as nat
  {
    hide Xor, Pow2;
    Pow2Values();
    Inverted(b, 8);
  }

  lemma XorOne(c: nat)
    ensures Xor(c, 1) == if c % 2 == 1 then c - 1 else c + 1
  {
    XorHalves(c, 1);
    XorSelf(c / 2);
  }

  // A short message that begins with two bytes of at most 15.
  lemma Started(a: byte, b: byte, rest: seq<byte>)
    ensures Crc16([a, b] + rest) == Divide(ShiftN(ShiftN((255 - a) as nat + 256 * (255 - b) as nat, 8), 8), rest)
  {
    hide Xor, ShiftN, Divide, Crc16;
    var data := [a, b] + rest;
    InvertedByte(a);
    InvertedByte(b);
    PresetInverts(data);
    assert data[2..] == rest;
    DivideConcat(0, [255 - a, 255 - b], rest);
    TwoAtOnce(255 - a, 255 - b);
  }

  lemma StartedOnly(a: byte, b: byte)
    ensures Crc16([a, b]) == ShiftN(ShiftN((255 - a) as nat + 256 * (255 - b) as nat, 8), 8)
  {
    hide Crc16, ShiftN, Xor;
    Started(a, b, []);
    assert [a, b] + [] == [a, b];
  }

  // Single bytes of zeros fed into the registers that the two known values go through.
  lemma FromF8FD()
    ensures ShiftN(0xF8FD, 8) == 0x8139
  {
    hide ShiftN, Shift, Xor, Divide;
    ByteOfSteps(0xF8FD, 0xCE3E, 0x938E, 0x84E2, 0x8139);
  }

  lemma From8139()
    ensures ShiftN(0x8139, 8) == 0x1241
  {
    hide ShiftN, Shift, Xor, Divide;
    ByteOfSteps(0x8139, 0xD04F, 0x6413, 0x4904, 0x1241);
  }

  lemma FromFCFE()
    ensures ShiftN(0xFCFE, 8) == 0x807D
  {
    hide ShiftN, Shift, Xor, Divide;
    ByteOfSteps(0xFCFE, 0x9F3E, 0x87CE, 0x81F2, 0x807D);
  }

  lemma From807D()
    ensures ShiftN(0x807D, 8) == 0x2140
  {
    hide ShiftN, Shift, Xor, Divide;
    ByteOfSteps(0x807D, 0xD01E, 0x9406, 0x8500, 0x2140);
  }

  lemma From2140()
    ensures ShiftN(0x2140, 8) == 0xF020
  {
    hide ShiftN, Shift, Xor, Divide;
    ByteOfSteps(0x2140, 0x0850, 0x0214, 0x0085, 0xF020);
  }

  lemma FromF020()
    ensures ShiftN(0xF020, 8) == 0xD8F1
  {
    hide ShiftN, Shift, Xor, Divide;
    ByteOfSteps(0xF020, 0x3C08, 0x0F02, 0xA3C1, 0xD8F1);
  }

  lemma FromD8F1()
    ensures ShiftN(0xD8F1, 8) == 0x8419
  {
    hide ShiftN, Shift, Xor, Divide;
    ByteOfSteps(0xD8F1, 0xC63D, 0xC18E, 0x9062, 0x8419);
  }

  lemma From8418()
    ensures ShiftN(0x8418, 8) == 0x0A84
  {
    hide ShiftN, Shift, Xor, Divide;
    ByteOfSteps(0x8418, 0x2106, 0xA840, 0x2A10, 0x0A84);
  }

  // The worked example of the specification (appendix B of MODBUS over Serial Line V1.02).
  lemma KnownCheck()
    ensures Crc16([0x02, 0x07]) == 0x1241
  {
    hide Crc16, ShiftN;
    StartedOnly(0x02, 0x07);
    FromF8FD();
    From8139();
  }

  // A read of one coil, and the two bytes that follow it on the wire.
  lemma KnownFrame()
    ensures Crc16([0x01, 0x03, 0x00, 0x00, 0x00, 0x01]) == 0x0A84
  {
    hide Crc16, ShiftN, Xor, Divide;
    var rest := [0x00, 0x00, 0x00, 0x01];
    Started(0x01, 0x03, rest);
    assert [0x01, 0x03] + rest == [0x01, 0x03, 0x00, 0x00, 0x00, 0x01];
    ZerosThenOne(0x2140);
    FromFCFE();
    From807D();
    From2140();
    FromF020();
    FromD8F1();
    XorOne(0x8419);
    From8418();
  }

  lemma ZerosThenOne(c: nat)
    ensures Divide(c, [0x00, 0x00, 0x00, 0x01]) == ShiftN(Xor(ShiftN(ShiftN(ShiftN(c, 8), 8), 8), 1), 8)
  {
    hide Xor, ShiftN;
    DivideConcat(c, ZeroBytes(3), [0x01]);
    assert ZeroBytes(3) + [0x01] == [0x00, 0x00, 0x00, 0x01];
    DivideZeros(c, 3);
    ShiftNSum(c, 8, 8);
    ShiftNSum(c, 16, 8);
  }
}
